/**
 The enforcement sweep of tcbot/modules/syncing.py: the bounded cross product of banned
 users and groups, the probe-then-write step on each pair, and the summary.
 */
module Syncing {
  import Formatter

  type Pair = (int, int)

  // ---------------------------------------------------------------------------
  // Which pairs one sweep looks at
  // ---------------------------------------------------------------------------

  function Row(user: int, chats: seq<int>): seq<Pair> {
    seq(|chats|, i requires 0 <= i < |chats| => (user, chats[i]))
  }

  function Cross(users: seq<int>, chats: seq<int>): seq<Pair> {
    if users == [] then [] else Row(users[0], chats) + Cross(users[1..], chats)
  }

  function TakePairs(users: seq<int>, chats: seq<int>, maxChecks: int): (seq<Pair>, bool) {
    var cap := if maxChecks < 0 then 0 else maxChecks;
    var cross := Cross(users, chats);
    var pairs := if |cross| < cap then cross else cross[..cap];
    (pairs, |users| * |chats| > |pairs|)
  }

  lemma {:induction false} CrossLength(users: seq<int>, chats: seq<int>)
    ensures |Cross(users, chats)| == |users| * |chats|
  {
    if users != [] {
      CrossLength(users[1..], chats);
      assert |users| * |chats| == |chats| + (|users| - 1) * |chats|;
    }
  }

  lemma {:induction false} CrossAt(users: seq<int>, chats: seq<int>, u: nat, c: nat)
    requires u < |users| && c < |chats|
    ensures u * |chats| + c < |Cross(users, chats)|
    ensures Cross(users, chats)[u * |chats| + c] == (users[u], chats[c])
  {
    if u > 0 {
      CrossAt(users[1..], chats, u - 1, c);
      assert u * |chats| == |chats| + (u - 1) * |chats|;
    }
  }

  lemma {:induction false} CancelFactor(q: nat, height: nat, width: nat)
    requires q * width < height * width
    ensures q < height
  {
    assert (height - q) * width == height * width - q * width;
  }

  lemma {:induction false} RowAndColumn(k: nat, width: nat, height: nat)
    requires k < height * width
    ensures width > 0 && k / width < height && k == (k / width) * width + k % width
  {
    assert width != 0;
    CancelFactor(k / width, height, width);
  }

  /**
   A sweep takes all pairs or as many as the cap allows, and is cut short exactly when the product
   exceeds what it took.
   */
  lemma {:induction false} TruncatedIffOverCap(users: seq<int>, chats: seq<int>, maxChecks: int)
    ensures var (pairs, truncated) := TakePairs(users, chats, maxChecks);
      var product := |users| * |chats|;
      && |pairs| == (if maxChecks <= 0 then 0 else if product < maxChecks then product else maxChecks)
      && (truncated <==> product > |pairs|)
      && (truncated <==> product > maxChecks && product > 0)
  {
    CrossLength(users, chats);
  }

  /** The pairs are a prefix of the row-major product: the k-th is user k div |chats| with chat k mod |chats|. */
  lemma {:induction false} TakePairsIsPrefix(users: seq<int>, chats: seq<int>, maxChecks: int, k: nat)
    requires k < |TakePairs(users, chats, maxChecks).0|
    ensures |chats| > 0 && k / |chats| < |users|
    ensures TakePairs(users, chats, maxChecks).0[k] == (users[k / |chats|], chats[k % |chats|])
  {
    CrossLength(users, chats);
    RowAndColumn(k, |chats|, |users|);
    CrossAt(users, chats, k / |chats|, k % |chats|);
  }

  // ---------------------------------------------------------------------------
  // The summary
  // ---------------------------------------------------------------------------

  /** What became of a pair; `Raised` is an exception in its place, such as a skipped slot. */
  datatype Outcome = Enforced | Unenforced | AlreadyOk | Absent | Privileged | Error | Raised

  const FAILED_SAMPLE_N := 5

  datatype SyncCounts = SyncCounts(
    checked: nat,
    enforcedBans: nat,
    enforcedUnbans: nat,
    skipped: nat,
    failed: nat,
    truncated: bool,
    failedTitles: seq<string>)

  predicate Banning(o: Outcome) {
    o == Enforced
  }

  predicate Unbanning(o: Outcome) {
    o == Unenforced
  }

  predicate Failed(o: Outcome) {
    o == Error || o == Raised
  }

  predicate Skipped(o: Outcome) {
    o == AlreadyOk || o == Absent || o == Privileged
  }

  function Count(outcomes: seq<Outcome>, p: Outcome -> bool): (n: nat)
    ensures n <= |outcomes|
  {
    if outcomes == [] then 0
    else Count(outcomes[..|outcomes| - 1], p) + if p(outcomes[|outcomes| - 1]) then 1 else 0
  }

  function Title(titles: map<int, string>, chat: int): string {
    if chat in titles then titles[chat] else Formatter.Decimal(chat)
  }

  /** The titles of every failed pair, in the order of the pairs. */
  function FailedTitles(pairs: seq<Pair>, outcomes: seq<Outcome>, titles: map<int, string>): seq<string>
    requires |pairs| == |outcomes|
  {
    if pairs == [] then []
    else
      var n := |pairs| - 1;
      FailedTitles(pairs[..n], outcomes[..n], titles) + if Failed(outcomes[n]) then [Title(titles, pairs[n].1)] else []
  }

  lemma {:induction false} Nothing(titles: map<int, string>)
    ensures Count([], Banning) == Count([], Unbanning) == Count([], Skipped) == Count([], Failed) == 0
    ensures Sample(FailedTitles([], [], titles)) == []
  {
  }

  lemma {:induction false} CountNext(outcomes: seq<Outcome>, i: nat, p: Outcome -> bool)
    requires i < |outcomes|
    ensures Count(outcomes[..i + 1], p) == Count(outcomes[..i], p) + if p(outcomes[i]) then 1 else 0
  {
    assert outcomes[..i + 1][..i] == outcomes[..i];
  }

  lemma {:induction false} TitlesNext(pairs: seq<Pair>, outcomes: seq<Outcome>, titles: map<int, string>, i: nat)
    requires i < |pairs| == |outcomes|
    ensures var before := FailedTitles(pairs[..i], outcomes[..i], titles);
      FailedTitles(pairs[..i + 1], outcomes[..i + 1], titles)
        == if Failed(outcomes[i]) then before + [Title(titles, pairs[i].1)] else before
  {
    assert outcomes[..i + 1][..i] == outcomes[..i] && pairs[..i + 1][..i] == pairs[..i];
  }

  function Sample(titles: seq<string>): seq<string> {
    if |titles| < FAILED_SAMPLE_N then titles else titles[..FAILED_SAMPLE_N]
  }

  lemma {:induction false} SampleNext(titles: seq<string>, title: string)
    ensures Sample(titles + [title]) == if |Sample(titles)| < FAILED_SAMPLE_N then Sample(titles) + [title]
              else Sample(titles)
  {
    if |titles| < FAILED_SAMPLE_N {
      assert (titles + [title])[..|titles| + 1] == titles + [title];
    } else {
      assert (titles + [title])[..FAILED_SAMPLE_N] == titles[..FAILED_SAMPLE_N];
    }
  }

  ghost function Hits(outcomes: seq<Outcome>, p: Outcome -> bool): set<nat> {
    set i: nat | i < |outcomes| && p(outcomes[i])
  }

  lemma {:induction false} HitsNext(outcomes: seq<Outcome>, p: Outcome -> bool)
    requires outcomes != []
    ensures var n := |outcomes| - 1;
      && n !in Hits(outcomes[..n], p)
      && Hits(outcomes, p) == if p(outcomes[n]) then Hits(outcomes[..n], p) + {n} else Hits(outcomes[..n], p)
  {
  }

  /** A count is the number of pairs with such an outcome. */
  lemma {:induction false} CountIsSize(outcomes: seq<Outcome>, p: Outcome -> bool)
    ensures Count(outcomes, p) == |Hits(outcomes, p)|
  {
    if outcomes == [] {
      assert Hits(outcomes, p) == {};
    } else {
      CountIsSize(outcomes[..|outcomes| - 1], p);
      HitsNext(outcomes, p);
      hide Hits;
    }
  }

  /** How many pairs ended in one of these outcomes. */
  ghost function Tally(outcomes: seq<Outcome>, kinds: set<Outcome>): nat {
    |set i: nat | i < |outcomes| && outcomes[i] in kinds|
  }

  ghost predicate Tallied(counts: SyncCounts, outcomes: seq<Outcome>) {
    && counts.enforcedBans == Tally(outcomes, {Enforced})
    && counts.enforcedUnbans == Tally(outcomes, {Unenforced})
    && counts.skipped == Tally(outcomes, {AlreadyOk, Absent, Privileged})
    && counts.failed == Tally(outcomes, {Error, Raised})
  }

  lemma {:induction false} CountIsTally(outcomes: seq<Outcome>, p: Outcome -> bool, kinds: set<Outcome>)
    requires forall o :: p(o) <==> o in kinds
    ensures Count(outcomes, p) == Tally(outcomes, kinds)
  {
    CountIsSize(outcomes, p);
    assert Hits(outcomes, p) == set i: nat | i < |outcomes| && outcomes[i] in kinds;
  }

  lemma {:induction false} CountsAreTally(outcomes: seq<Outcome>)
    ensures Count(outcomes, Banning) == Tally(outcomes, {Enforced})
    ensures Count(outcomes, Unbanning) == Tally(outcomes, {Unenforced})
    ensures Count(outcomes, Skipped) == Tally(outcomes, {AlreadyOk, Absent, Privileged})
    ensures Count(outcomes, Failed) == Tally(outcomes, {Error, Raised})
  {
    CountIsTally(outcomes, Banning, {Enforced});
    CountIsTally(outcomes, Unbanning, {Unenforced});
    CountIsTally(outcomes, Skipped, {AlreadyOk, Absent, Privileged});
    CountIsTally(outcomes, Failed, {Error, Raised});
  }

  /** Every checked pair is counted once, and the first failed titles are kept. */
  method Summarize(pairs: seq<Pair>, outcomes: seq<Outcome>, titles: map<int, string>, truncated: bool)
    returns (counts: SyncCounts)
    requires |outcomes| == |pairs|
    ensures counts.checked == |pairs| && counts.truncated == truncated
    ensures counts.enforcedBans + counts.enforcedUnbans + counts.skipped + counts.failed == counts.checked
    ensures Tallied(counts, outcomes)
    ensures counts.failedTitles == Sample(FailedTitles(pairs, outcomes, titles))
    ensures |counts.failedTitles| == if counts.failed < 5 then counts.failed else 5
  {
    var enforced, unenforced, error, skip := 0, 0, 0, 0;
    var failedTitles: seq<string> := [];
    Nothing(titles);
    hide Count, FailedTitles, Sample;
    assert outcomes[..0] == [] && pairs[..0] == [];
    for i := 0 to |pairs|
      invariant enforced == Count(outcomes[..i], Banning)
      invariant unenforced == Count(outcomes[..i], Unbanning)
      invariant skip == Count(outcomes[..i], Skipped)
      invariant error == Count(outcomes[..i], Failed)
      invariant enforced + unenforced + skip + error == i
      invariant failedTitles == Sample(FailedTitles(pairs[..i], outcomes[..i], titles))
      invariant |failedTitles| == if error < 5 then error else 5
    {
      var chat := pairs[i].1;
      CountNext(outcomes, i, Banning);
      CountNext(outcomes, i, Unbanning);
      CountNext(outcomes, i, Skipped);
      CountNext(outcomes, i, Failed);
      TitlesNext(pairs, outcomes, titles, i);
      SampleNext(FailedTitles(pairs[..i], outcomes[..i], titles), Title(titles, chat));
      match outcomes[i] {
        case Raised =>
          error := error + 1;
          if |failedTitles| < FAILED_SAMPLE_N {
            failedTitles := failedTitles + [Title(titles, chat)];
          }
        case Enforced => enforced := enforced + 1;
        case Unenforced => unenforced := unenforced + 1;
        case Error =>
          error := error + 1;
          if |failedTitles| < FAILED_SAMPLE_N {
            failedTitles := failedTitles + [Title(titles, chat)];
          }
        case _ => skip := skip + 1;
      }
    }
    assert outcomes[..|pairs|] == outcomes && pairs[..|pairs|] == pairs;
    CountsAreTally(outcomes);
    counts := SyncCounts(|pairs|, enforced, unenforced, skip, error, truncated, failedTitles);
  }

  datatype Group = Group(chat: int, title: string)

  function OwnChat(g: Group): seq<int> {
    if g.chat != 0 then [g.chat] else []
  }

  function Chats(groups: seq<Group>): seq<int> {
    if groups == [] then [] else OwnChat(groups[0]) + Chats(groups[1..])
  }

  /** The last group with a chat id names it; an empty title shows as the id. */
  function Titles(groups: seq<Group>): map<int, string> {
    if groups == [] then map[]
    else
      var last := groups[|groups| - 1];
      var rest := Titles(groups[..|groups| - 1]);
      if last.chat == 0 then rest
      else rest[last.chat := if last.title != "" then last.title else Formatter.Decimal(last.chat)]
  }

  lemma {:induction false} Regrouped<T>(a: seq<T>, b: seq<T>, c: seq<T>)
    ensures (a + b) + c == a + (b + c)
  {
  }

  lemma {:induction false} ChatsFront(g: Group, rest: seq<Group>)
    ensures Chats([g] + rest) == OwnChat(g) + Chats(rest)
  {
    assert ([g] + rest)[1..] == rest;
  }

  /** A sweep looks at every group with a chat id, as often as it is listed and in that order. */
  lemma {:induction false} ChatsInOrder(groups: seq<Group>, more: seq<Group>)
    ensures Chats(groups + more) == Chats(groups) + Chats(more)
  {
    if groups == [] {
      assert groups + more == more;
    } else {
      hide Chats, OwnChat;
      var g, rest := groups[0], groups[1..];
      ChatsInOrder(rest, more);
      assert groups == [g] + rest;
      ChatsFront(g, rest);
      ChatsFront(g, rest + more);
      Regrouped([g], rest, more);
      Regrouped(OwnChat(g), Chats(rest), Chats(more));
    }
  }

  lemma {:induction false} OneChat(g: Group)
    ensures Chats([g]) == if g.chat == 0 then [] else [g.chat]
  {
    assert [g][1..] == [];
  }

  /** The last group with a chat id gives that chat's title, and the id's numeral where the title is empty. */
  lemma {:induction false} LastGroupNames(groups: seq<Group>, k: nat)
    requires k < |groups| && groups[k].chat != 0
    requires forall j :: k < j < |groups| ==> groups[j].chat != groups[k].chat
    ensures var (chat, title) := (groups[k].chat, groups[k].title);
      && chat in Titles(groups)
      && (title != "" ==> Title(Titles(groups), chat) == title)
      && (title == "" ==> Formatter.Denotes(Title(Titles(groups), chat), chat))
    ensures 0 !in Titles(groups)
  {
    var n := |groups| - 1;
    Formatter.DecimalDenotes(groups[k].chat);
    NoTitleOfNone(groups);
    if k < n {
      LastGroupNames(groups[..n], k);
    }
  }

  lemma {:induction false} NoTitleOfNone(groups: seq<Group>)
    ensures 0 !in Titles(groups)
  {
    if groups != [] {
      NoTitleOfNone(groups[..|groups| - 1]);
    }
  }

  /**
   The result of a whole sweep, given what became of its pairs. A sweep without pairs reports
   nothing at all, so a cap that admits no pair is not reported as truncation.
   */
  method RunBanSync(groups: seq<Group>, users: seq<int>, maxChecks: int, outcomes: seq<Outcome>)
      returns (counts: SyncCounts)
    requires |outcomes| == |TakePairs(users, Chats(groups), maxChecks).0|
    ensures counts.checked == |outcomes|
    ensures counts.enforcedBans + counts.enforcedUnbans + counts.skipped + counts.failed == counts.checked
    ensures counts.truncated <==> 0 < maxChecks < |users| * |Chats(groups)|
    ensures Tallied(counts, outcomes)
    ensures counts.failedTitles
         == Sample(FailedTitles(TakePairs(users, Chats(groups), maxChecks).0, outcomes, Titles(groups)))
  {
    var (pairs, truncated) := TakePairs(users, Chats(groups), maxChecks);
    TruncatedIffOverCap(users, Chats(groups), maxChecks);
    if pairs == [] {
      Nothing(Titles(groups));
      assert outcomes == [];
      CountsAreTally(outcomes);
      return SyncCounts(0, 0, 0, 0, 0, false, []);
    }
    counts := Summarize(pairs, outcomes, Titles(groups), truncated);
  }

  // ---------------------------------------------------------------------------
  // The sweep itself
  // ---------------------------------------------------------------------------

  datatype Status = Banned | Gone | Administrator | Owner | Member | Restricted

  /** Users a chat has never seen are not in the map. */
  type Statuses = map<Pair, Status>

  function StatusOf(m: Statuses, p: Pair): Status {
    if p in m then m[p] else Gone
  }

  /** How Telegram takes a call: it works, or is refused as a bad request, or fails otherwise. */
  datatype Answer = Works | Refused | Broken

  datatype Direction = Ban | Unban

  datatype Slot = Waiting | Judged | Finished(outcome: Outcome)

  datatype Sweep = Sweep(slots: seq<Slot>, statuses: Statuses)

  datatype Step = Probe(i: nat, answer: Answer) | Act(i: nat, answer: Answer)

  /** Whether a pair in this state makes the sweep write. */
  predicate Actionable(d: Direction, s: Status) {
    match d
    case Ban => s == Member || s == Restricted
    case Unban => s == Banned
  }

  function Verdict(d: Direction, s: Status): Slot {
    match d
    case Ban =>
      (match s
       case Banned => Finished(AlreadyOk)
       case Gone => Finished(Absent)
       case Administrator => Finished(Privileged)
       case Owner => Finished(Privileged)
       case _ => Judged)
    case Unban => if s != Banned then Finished(AlreadyOk) else Judged
  }

  function Written(d: Direction, m: Statuses, p: Pair): Statuses {
    match d
    case Ban => m[p := Banned]
    case Unban => if StatusOf(m, p) == Banned then m[p := Gone] else m
  }

  function Success(d: Direction): Outcome {
    if d == Ban then Enforced else Unenforced
  }

  predicate Enabled(pairs: seq<Pair>, s: Sweep, step: Step) {
    && |s.slots| == |pairs| && step.i < |pairs|
    && s.slots[step.i] == if step.Probe? then Waiting else Judged
  }

  function Next(d: Direction, pairs: seq<Pair>, s: Sweep, step: Step): Sweep
    requires Enabled(pairs, s, step)
  {
    var p := pairs[step.i];
    match step
    case Probe(i, Refused) => s.(slots := s.slots[i := Finished(Absent)])
    case Probe(i, Broken) => s.(slots := s.slots[i := Finished(Error)])
    case Probe(i, Works) => s.(slots := s.slots[i := Verdict(d, StatusOf(s.statuses, p))])
    case Act(i, Refused) => s.(slots := s.slots[i := Finished(Absent)])
    case Act(i, Broken) => s.(slots := s.slots[i := Finished(Error)])
    case Act(i, Works) => Sweep(s.slots[i := Finished(Success(d))], Written(d, s.statuses, p))
  }

  function Begin(pairs: seq<Pair>, m: Statuses): Sweep {
    Sweep(seq(|pairs|, _ => Waiting), m)
  }

  ghost predicate Schedule(d: Direction, pairs: seq<Pair>, s: Sweep, steps: seq<Step>)
    decreases |steps|
  {
    steps != [] ==> Enabled(pairs, s, steps[0]) && Schedule(d, pairs, Next(d, pairs, s, steps[0]), steps[1..])
  }

  ghost function Run(d: Direction, pairs: seq<Pair>, s: Sweep, steps: seq<Step>): Sweep
    requires Schedule(d, pairs, s, steps)
    decreases |steps|
  {
    if steps == [] then s else Run(d, pairs, Next(d, pairs, s, steps[0]), steps[1..])
  }

  /** Telegram refuses only pairs on which the sweep has nothing to do. */
  ghost predicate Honest(d: Direction, pairs: seq<Pair>, s: Sweep, steps: seq<Step>)
    requires Schedule(d, pairs, s, steps)
    decreases |steps|
  {
    steps != [] ==>
      && (steps[0].answer == Refused ==> !Actionable(d, StatusOf(s.statuses, pairs[steps[0].i])))
      && Honest(d, pairs, Next(d, pairs, s, steps[0]), steps[1..])
  }

  ghost predicate ErrorFree(s: Sweep) {
    forall i :: 0 <= i < |s.slots| ==> s.slots[i].Finished? && !Failed(s.slots[i].outcome)
  }

  /** Nothing is left to do on any pair. */
  ghost predicate Settled(d: Direction, pairs: seq<Pair>, m: Statuses) {
    forall i :: 0 <= i < |pairs| ==> !Actionable(d, StatusOf(m, pairs[i]))
  }

  ghost predicate FinishedSettled(d: Direction, pairs: seq<Pair>, s: Sweep) {
    && |s.slots| == |pairs|
    && forall i :: 0 <= i < |pairs| && s.slots[i].Finished? && !Failed(s.slots[i].outcome) ==>
        !Actionable(d, StatusOf(s.statuses, pairs[i]))
  }

  lemma {:induction false} HonestSweepSettles(d: Direction, pairs: seq<Pair>, s: Sweep, steps: seq<Step>)
    requires FinishedSettled(d, pairs, s) && Schedule(d, pairs, s, steps) && Honest(d, pairs, s, steps)
    ensures FinishedSettled(d, pairs, Run(d, pairs, s, steps))
    decreases |steps|
  {
    if steps != [] {
      assert FinishedSettled(d, pairs, Next(d, pairs, s, steps[0]));
      HonestSweepSettles(d, pairs, Next(d, pairs, s, steps[0]), steps[1..]);
    }
  }

  ghost predicate Idle(d: Direction, pairs: seq<Pair>, s: Sweep) {
    && |s.slots| == |pairs| && Settled(d, pairs, s.statuses)
    && forall i :: 0 <= i < |pairs| ==> s.slots[i] != Judged && s.slots[i] != Finished(Success(d))
  }

  lemma {:induction false} SettledStaysIdle(d: Direction, pairs: seq<Pair>, s: Sweep, steps: seq<Step>)
    requires Idle(d, pairs, s) && Schedule(d, pairs, s, steps)
    ensures Idle(d, pairs, Run(d, pairs, s, steps)) && Run(d, pairs, s, steps).statuses == s.statuses
    decreases |steps|
  {
    if steps != [] {
      assert Idle(d, pairs, Next(d, pairs, s, steps[0]));
      SettledStaysIdle(d, pairs, Next(d, pairs, s, steps[0]), steps[1..]);
    }
  }

  ghost predicate EnforcesNothing(d: Direction, pairs: seq<Pair>, m: Statuses, steps: seq<Step>) {
    Schedule(d, pairs, Begin(pairs, m), steps) ==>
      var end := Run(d, pairs, Begin(pairs, m), steps);
      end.statuses == m && forall i :: 0 <= i < |end.slots| ==> end.slots[i] != Finished(Success(d))
  }

  /**
   When Telegram refuses only pairs with nothing to do, an error-free sweep repeated on what
   it left enforces nothing, in either direction and in every interleaving of both sweeps.
   */
  lemma {:induction false} RepeatedSweepEnforcesNothing(
      d: Direction, pairs: seq<Pair>, m: Statuses, first: seq<Step>, second: seq<Step>)
    requires Schedule(d, pairs, Begin(pairs, m), first) && Honest(d, pairs, Begin(pairs, m), first)
    requires ErrorFree(Run(d, pairs, Begin(pairs, m), first))
    ensures EnforcesNothing(d, pairs, Run(d, pairs, Begin(pairs, m), first).statuses, second)
  {
    HonestSweepSettles(d, pairs, Begin(pairs, m), first);
    var left := Run(d, pairs, Begin(pairs, m), first).statuses;
    assert Settled(d, pairs, left);
    if Schedule(d, pairs, Begin(pairs, left), second) {
      SettledStaysIdle(d, pairs, Begin(pairs, left), second);
    }
  }

  /** Without that assumption, no sweep can enforce anything exactly when every pair is settled. */
  lemma {:induction false} NothingEnforcedIffSettled(d: Direction, pairs: seq<Pair>, m: Statuses)
    ensures (forall steps :: EnforcesNothing(d, pairs, m, steps)) <==> Settled(d, pairs, m)
  {
    if Settled(d, pairs, m) {
      forall steps ensures EnforcesNothing(d, pairs, m, steps) {
        if Schedule(d, pairs, Begin(pairs, m), steps) {
          SettledStaysIdle(d, pairs, Begin(pairs, m), steps);
        }
      }
    } else {
      var i: nat :| i < |pairs| && Actionable(d, StatusOf(m, pairs[i]));
      var steps := [Probe(i, Works), Act(i, Works)];
      var s := Begin(pairs, m);
      var s' := Next(d, pairs, s, steps[0]);
      var s'' := Next(d, pairs, s', steps[1]);
      assert steps[1..] == [steps[1]] && steps[1..][1..] == [];
      assert Schedule(d, pairs, s'', []) && Schedule(d, pairs, s', steps[1..]) && Schedule(d, pairs, s, steps);
      assert Run(d, pairs, s'', []) == s'' == Run(d, pairs, s', steps[1..]) == Run(d, pairs, s, steps);
      assert s''.slots[i] == Finished(Success(d));
      assert !EnforcesNothing(d, pairs, m, steps);
    }
  }

  ghost predicate DistinctPairs(pairs: seq<Pair>) {
    forall i, j :: 0 <= i < j < |pairs| ==> pairs[i] != pairs[j]
  }

  /**
   What a slot says of its pair: the status the pair had before the sweep and has now, and how
   Telegram took its calls. Only an enforced pair has changed, from a member to banned or from
   banned to gone.
   */
  ghost predicate SlotMeans(d: Direction, before: Status, now: Status, slot: Slot, refused: bool, broken: bool) {
    match slot
    case Waiting => now == before && !refused && !broken
    case Judged =>
      now == before && before in (if d == Ban then {Member, Restricted} else {Banned}) && !refused && !broken
    case Finished(Enforced) => d == Ban && before in {Member, Restricted} && now == Banned && !refused && !broken
    case Finished(Unenforced) => d == Unban && before == Banned && now == Gone && !refused && !broken
    case Finished(AlreadyOk) => now == before && (before == Banned <==> d == Ban) && !refused && !broken
    case Finished(Privileged) => now == before && d == Ban && before in {Administrator, Owner} && !refused && !broken
    case Finished(Absent) => now == before && (refused || (d == Ban && before == Gone)) && !broken
    case Finished(Error) => now == before && broken && !refused
    case Finished(Raised) => false
  }

  ghost predicate AnsweredIn(steps: seq<Step>, k: nat, a: Answer) {
    exists j :: 0 <= j < |steps| && steps[j].i == k && steps[j].answer == a
  }

  lemma {:induction false} StepKeepsMeaning(d: Direction, pairs: seq<Pair>, s: Sweep, step: Step, k: nat,
                                            before: Status, refused: bool, broken: bool)
    requires DistinctPairs(pairs) && k < |pairs| && Enabled(pairs, s, step)
    requires SlotMeans(d, before, StatusOf(s.statuses, pairs[k]), s.slots[k], refused, broken)
    ensures var s' := Next(d, pairs, s, step);
      && |s'.slots| == |pairs|
      && SlotMeans(d, before, StatusOf(s'.statuses, pairs[k]), s'.slots[k],
                   refused || (step.i == k && step.answer == Refused), broken || (step.i == k && step.answer == Broken))
  {
    if step.i != k {
      assert pairs[step.i] != pairs[k];
    }
  }

  lemma {:induction false} AnsweredSplits(steps: seq<Step>, k: nat, a: Answer)
    requires steps != []
    ensures AnsweredIn(steps, k, a) <==> (steps[0].i == k && steps[0].answer == a) || AnsweredIn(steps[1..], k, a)
  {
    if AnsweredIn(steps, k, a) {
      var j :| 0 <= j < |steps| && steps[j].i == k && steps[j].answer == a;
      assert j > 0 ==> steps[1..][j - 1] == steps[j];
    }
    if AnsweredIn(steps[1..], k, a) {
      var j :| 0 <= j < |steps[1..]| && steps[1..][j].i == k && steps[1..][j].answer == a;
      assert steps[j + 1] == steps[1..][j];
    }
  }

  lemma {:induction false} StepsKeepMeaning(d: Direction, pairs: seq<Pair>, s: Sweep, steps: seq<Step>, k: nat,
                                            before: Status, refused: bool, broken: bool)
    requires DistinctPairs(pairs) && k < |pairs| == |s.slots| && Schedule(d, pairs, s, steps)
    requires SlotMeans(d, before, StatusOf(s.statuses, pairs[k]), s.slots[k], refused, broken)
    ensures var end := Run(d, pairs, s, steps);
      && |end.slots| == |pairs|
      && SlotMeans(d, before, StatusOf(end.statuses, pairs[k]), end.slots[k],
                   refused || AnsweredIn(steps, k, Refused), broken || AnsweredIn(steps, k, Broken))
    decreases |steps|
  {
    if steps != [] {
      var step := steps[0];
      StepKeepsMeaning(d, pairs, s, step, k, before, refused, broken);
      AnsweredSplits(steps, k, Refused);
      AnsweredSplits(steps, k, Broken);
      hide Next, SlotMeans, AnsweredIn;
      StepsKeepMeaning(d, pairs, Next(d, pairs, s, step), steps[1..], k, before,
                       refused || (step.i == k && step.answer == Refused),
                       broken || (step.i == k && step.answer == Broken));
    }
  }

  /**
   In every interleaving, each outcome tells the status its pair had and has and how Telegram took
   its calls: the sweep changes the pairs it reports as enforced and no others, a pair is an error
   exactly when a call broke, and an absent pair that was not gone was refused.
   */
  lemma {:induction false} OutcomesTellStatus(d: Direction, pairs: seq<Pair>, m: Statuses, steps: seq<Step>, k: nat)
    requires DistinctPairs(pairs) && k < |pairs| && Schedule(d, pairs, Begin(pairs, m), steps)
    ensures var end := Run(d, pairs, Begin(pairs, m), steps);
      && |end.slots| == |pairs|
      && SlotMeans(d, StatusOf(m, pairs[k]), StatusOf(end.statuses, pairs[k]), end.slots[k],
                   AnsweredIn(steps, k, Refused), AnsweredIn(steps, k, Broken))
  {
    StepsKeepMeaning(d, pairs, Begin(pairs, m), steps, k, StatusOf(m, pairs[k]), false, false);
  }

  /** A pair whose slot is finished keeps its status for the rest of the sweep. */
  lemma {:induction false} FinishedKeepsStatus(d: Direction, pairs: seq<Pair>, s: Sweep, steps: seq<Step>, i: nat)
    requires DistinctPairs(pairs) && Schedule(d, pairs, s, steps) && i < |pairs| == |s.slots| && s.slots[i].Finished?
    ensures StatusOf(Run(d, pairs, s, steps).statuses, pairs[i]) == StatusOf(s.statuses, pairs[i])
    decreases |steps|
  {
    if steps != [] {
      assert steps[0].i != i && pairs[steps[0].i] != pairs[i];
      FinishedKeepsStatus(d, pairs, Next(d, pairs, s, steps[0]), steps[1..], i);
    }
  }

  /** A refusal of a pair with something to do leaves it so. */
  lemma {:induction false} RefusalLeavesWork(d: Direction, pairs: seq<Pair>, s: Sweep, steps: seq<Step>)
    requires DistinctPairs(pairs) && |s.slots| == |pairs| && Schedule(d, pairs, s, steps) && !Honest(d, pairs, s, steps)
    ensures !Settled(d, pairs, Run(d, pairs, s, steps).statuses)
    decreases |steps|
  {
    var step, s' := steps[0], Next(d, pairs, s, steps[0]);
    if step.answer == Refused && Actionable(d, StatusOf(s.statuses, pairs[step.i])) {
      FinishedKeepsStatus(d, pairs, s', steps[1..], step.i);
    } else {
      RefusalLeavesWork(d, pairs, s', steps[1..]);
    }
  }

  /**
   The exact condition, for distinct pairs: after an error-free sweep no second one can enforce
   anything if and only if Telegram refused only pairs with nothing to do.
   */
  lemma {:induction false} NothingLeftIffHonest(d: Direction, pairs: seq<Pair>, m: Statuses, first: seq<Step>)
    requires DistinctPairs(pairs) && Schedule(d, pairs, Begin(pairs, m), first)
    requires ErrorFree(Run(d, pairs, Begin(pairs, m), first))
    ensures (forall second :: EnforcesNothing(d, pairs, Run(d, pairs, Begin(pairs, m), first).statuses, second))
            <==> Honest(d, pairs, Begin(pairs, m), first)
  {
    var left := Run(d, pairs, Begin(pairs, m), first).statuses;
    NothingEnforcedIffSettled(d, pairs, left);
    if Honest(d, pairs, Begin(pairs, m), first) {
      HonestSweepSettles(d, pairs, Begin(pairs, m), first);
    } else {
      RefusalLeavesWork(d, pairs, Begin(pairs, m), first);
    }
  }

  /** A member whose ban Telegram refuses is reported as absent, and a later sweep may ban him. */
  lemma {:induction false} RefusedMemberExample()
    ensures var pairs := [(1, -5)];
      var m := map[(1, -5) := Member];
      var first := [Probe(0, Works), Act(0, Refused)];
      && Schedule(Ban, pairs, Begin(pairs, m), first)
      && ErrorFree(Run(Ban, pairs, Begin(pairs, m), first))
      && !Settled(Ban, pairs, Run(Ban, pairs, Begin(pairs, m), first).statuses)
  {
    var pairs := [(1, -5)];
    var m := map[(1, -5) := Member];
    var first := [Probe(0, Works), Act(0, Refused)];
    var s := Begin(pairs, m);
    var s' := Next(Ban, pairs, s, first[0]);
    var s'' := Next(Ban, pairs, s', first[1]);
    assert first[1..] == [first[1]] && first[1..][1..] == [];
    assert Schedule(Ban, pairs, s'', []) && Schedule(Ban, pairs, s', first[1..]);
    assert Run(Ban, pairs, s'', []) == s'' == Run(Ban, pairs, s', first[1..]);
    assert Actionable(Ban, StatusOf(s''.statuses, pairs[0]));
  }
}
