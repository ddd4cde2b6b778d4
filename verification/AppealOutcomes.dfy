/**
 What submissions and decisions of the appeal protocol achieve (module Appeals): what an
 approval that gets its calls through has done when it ends, when a tap or a submission on its
 own succeeds, and which chats have been unbanned.
 */
module AppealOutcomes {
  import opened AppealButtons
  import opened Appeals
  import opened FiniteSets
  import opened Wrappers

  lemma {:induction false} Concatenated(w: World, a: seq<Step>, b: seq<Step>)
    requires Schedule(w, a) && Schedule(Run(w, a), b)
    ensures Schedule(w, a + b) && Run(w, a + b) == Run(Run(w, a), b)
    decreases |a|
  {
    if a == [] {
      assert a + b == b;
    } else {
      Concatenated(Next(w, a[0]), a[1..], b);
      assert (a + b)[1..] == a[1..] + b;
    }
  }

  lemma {:induction false} OneStep(w: World, s: Step)
    requires Enabled(w, s)
    ensures Schedule(w, [s]) && Run(w, [s]) == Next(w, s)
  {
    assert [s][1..] == [];
    assert Schedule(Next(w, s), []) && Run(Next(w, s), []) == Next(w, s);
  }

  /** Steps of one decision that come after its tap. */
  predicate Continues(steps: seq<Step>, id: nat) {
    forall i :: 0 <= i < |steps| ==> OfDecision(steps[i], id) && !steps[i].Tap?
  }

  // ---------------------------------------------------------------------------
  // Verdicts are carried out
  // ---------------------------------------------------------------------------

  lemma {:induction false} UnbanOne(w: World, id: nat, chat: int)
    requires InDecision(w, id) && w.decisions[id].1.Unbanning?
    ensures Enabled(w, UnbanChat(id, chat))
    ensures Next(w, UnbanChat(id, chat)) == w.(unbanned := w.unbanned + {chat})
  {
  }

  lemma {:induction false} NoSteps(w: World)
    ensures Schedule(w, []) && Run(w, []) == w
  {
  }

  function Members(chats: seq<int>): set<int> {
    set chat | chat in chats
  }

  lemma {:induction false} UnbanAll(w: World, id: nat, chats: seq<int>) returns (steps: seq<Step>)
    requires InDecision(w, id) && w.decisions[id].1.Unbanning?
    ensures Continues(steps, id) && Schedule(w, steps)
    ensures Run(w, steps) == w.(unbanned := w.unbanned + Members(chats))
    decreases |chats|
  {
    hide Next, Enabled, Schedule, Run;
    if chats == [] {
      steps := [];
      NoSteps(w);
      assert w.unbanned + Members(chats) == w.unbanned;
    } else {
      var chat := chats[0];
      UnbanOne(w, id, chat);
      var rest := UnbanAll(w.(unbanned := w.unbanned + {chat}), id, chats[1..]);
      steps := [UnbanChat(id, chat)] + rest;
      Prepend(w, UnbanChat(id, chat), rest);
      assert w.unbanned + {chat} + Members(chats[1..]) == w.unbanned + Members(chats);
    }
  }

  /** The records after an approval of `ban`: every ban of the user inactive, this review resolved. */
  function Approved(bans: map<BanId, Ban>, ban: BanId): map<BanId, Ban> {
    map b | b in bans :: Ban(false, bans[b].adminId, if b == ban then None else bans[b].review, bans[b].rejectedAt)
  }

  /** The steps from the verdict to the fan-out. */
  lemma {:induction false} UpToUnbanning(w: World, id: nat, ban: BanId) returns (steps: seq<Step>)
    requires ban in w.bans && id in w.decisions && w.decisions[id] == (ban, FetchingGroups)
    ensures Continues(steps, id) && Schedule(w, steps)
    ensures Run(w, steps) == w.(bans := Approved(w.bans, ban), decisions := w.decisions[id := (ban, Unbanning)],
            slotLog := w.slotLog + [Cleared(ban)])
  {
    var w1 := Next(w, FetchGroups(id, true));
    var w2 := Next(w1, Deactivate(id, true));
    var w3 := Next(w2, ClearApproved(id, true));
    assert w3.bans == Approved(w.bans, ban);
    assert w3 == w.(bans := Approved(w.bans, ban), decisions := w.decisions[id := (ban, Unbanning)],
            slotLog := w.slotLog + [Cleared(ban)]);
    OneStep(w2, ClearApproved(id, true));
    Prepend(w1, Deactivate(id, true), [ClearApproved(id, true)]);
    Prepend(w, FetchGroups(id, true), [Deactivate(id, true)] + [ClearApproved(id, true)]);
    steps := [FetchGroups(id, true)] + ([Deactivate(id, true)] + [ClearApproved(id, true)]);
  }

  /**
   An approval whose calls succeed, in full: the user has no active ban, this review is
   resolved, the wanted chats are unbanned, and nothing else has changed.
   */
  lemma {:induction false} ApprovalIsCarriedOut(w: World, id: nat, ban: BanId, chats: seq<int>)
    returns (steps: seq<Step>)
    requires ban in w.bans && id in w.decisions && w.decisions[id] == (ban, FetchingGroups)
    ensures Continues(steps, id) && Schedule(w, steps)
    ensures Run(w, steps) == w.(bans := Approved(w.bans, ban), decisions := w.decisions[id := (ban, DecisionOver)],
            slotLog := w.slotLog + [Cleared(ban)], unbanned := w.unbanned + Members(chats))
  {
    var before := UpToUnbanning(w, id, ban);
    var fan := UnbanAll(Run(w, before), id, chats);
    Concatenated(w, before, fan);
    var done := Run(w, before + fan);
    OneStep(done, StopUnbanning(id));
    Concatenated(w, before + fan, [StopUnbanning(id)]);
    steps := before + fan + [StopUnbanning(id)];
  }

  /**
   Wherever a tap on the approve button can still lead to the verdict, it can be carried
   through: for any list of chats some run of that decision ends with every ban of the
   user inactive, the review gone and all of those chats unbanned.
   */
  lemma {:induction false} ApprovalCompletes(w: World, ban: BanId, reviewer: int, chats: seq<int>)
    returns (id: nat, steps: seq<Step>)
    requires CanStillDecide(w, ban, Approve, reviewer)
    ensures id !in w.decisions && Schedule(w, steps) && TapsAreBy(steps, id, ButtonData(Approve, ban), reviewer)
    ensures var end := Run(w, steps);
      && id in end.decisions && end.decisions[id] == (ban, DecisionOver)
      && NoActiveBan(end) && ban in end.bans && end.bans[ban].review.None? && Members(chats) <= end.unbanned
  {
    var some, before :| LeadsToVerdict(w, before, some, ban, Approve, reviewer);
    id := some;
    VerdictHasBan(w, before, id);
    var after := ApprovalIsCarriedOut(Run(w, before), id, ban, chats);
    Concatenated(w, before, after);
    steps := before + after;
  }

  ghost predicate DecisionsHaveBans(w: World, id: nat) {
    id in w.decisions ==> w.decisions[id].0 in w.bans
  }

  lemma {:induction false} VerdictHasBan(w: World, steps: seq<Step>, id: nat)
    requires Schedule(w, steps) && DecisionsHaveBans(w, id)
    ensures DecisionsHaveBans(Run(w, steps), id)
    decreases |steps|
  {
    if steps != [] {
      StepHasBan(w, steps[0], id);
      VerdictHasBan(Next(w, steps[0]), steps[1..], id);
    }
  }

  lemma {:induction false} StepHasBan(w: World, s: Step, id: nat)
    requires Enabled(w, s) && DecisionsHaveBans(w, id)
    ensures DecisionsHaveBans(Next(w, s), id)
  {
  }

  /** A rejection whose calls succeed: dated now, its review resolved, nothing else changed. */
  lemma {:induction false} RejectionIsCarriedOut(w: World, id: nat, ban: BanId) returns (steps: seq<Step>)
    requires ban in w.bans && id in w.decisions && w.decisions[id] == (ban, Rejecting)
    ensures Continues(steps, id) && Schedule(w, steps)
    ensures Run(w, steps) == w.(
            bans := w.bans[ban := Ban(w.bans[ban].active, w.bans[ban].adminId, None, Some(w.now))],
            decisions := w.decisions[id := (ban, DecisionOver)],
            slotLog := w.slotLog + [Cleared(ban)])
  {
    var w1 := Next(w, SetRejected(id, true));
    OneStep(w1, ClearRejected(id, true));
    Prepend(w, SetRejected(id, true), [ClearRejected(id, true)]);
    steps := [SetRejected(id, true)] + [ClearRejected(id, true)];
    assert Next(w1, ClearRejected(id, true)).bans
        == w.bans[ban := Ban(w.bans[ban].active, w.bans[ban].adminId, None, Some(w.now))];
  }

  // ---------------------------------------------------------------------------
  // Once deactivated, the fan-out follows
  // ---------------------------------------------------------------------------

  predicate Committed(d: Decision) {
    d.ClearingApproved? || d.Unbanning? || d.DecisionOver?
  }

  predicate MarkerDone(steps: seq<Step>, id: nat) {
    ClearApproved(id, true) in steps || ClearApproved(id, false) in steps
  }

  /** The phase a decision is in, once it has deactivated the bans and the steps have been taken. */
  function PhaseAfter(d: Decision, steps: seq<Step>, id: nat): Decision {
    if d.DecisionOver? || StopUnbanning(id) in steps then DecisionOver
    else if d.Unbanning? || MarkerDone(steps, id) then Unbanning
    else ClearingApproved
  }

  lemma {:induction false} StaysCommitted(w: World, steps: seq<Step>, id: nat)
    requires InDecision(w, id) && Committed(w.decisions[id].1) && Schedule(w, steps)
    ensures InDecision(Run(w, steps), id)
    ensures Run(w, steps).decisions[id] == (w.decisions[id].0, PhaseAfter(w.decisions[id].1, steps, id))
    decreases |steps|
  {
    if steps != [] {
      CommittedStep(w, steps[0], id);
      hide Next, Enabled;
      assert steps == [steps[0]] + steps[1..];
      StaysCommitted(Next(w, steps[0]), steps[1..], id);
    }
  }

  lemma {:induction false} CommittedStep(w: World, s: Step, id: nat)
    requires InDecision(w, id) && Committed(w.decisions[id].1) && Enabled(w, s)
    ensures InDecision(Next(w, s), id)
    ensures Next(w, s).decisions[id] == (w.decisions[id].0, PhaseAfter(w.decisions[id].1, [s], id))
    ensures s == StopUnbanning(id) ==> w.decisions[id].1.Unbanning?
  {
  }

  /**
   A decision that has deactivated the bans is never lost, whatever others do and whether or
   not its marker step succeeds: it is over exactly when it has stopped unbanning, and until
   then it can unban any chat exactly when its marker step is done.
   */
  lemma {:induction false} DeactivationLeadsToUnbanning(w: World, id: nat, steps: seq<Step>)
    requires Enabled(w, Deactivate(id, true)) && Schedule(Next(w, Deactivate(id, true)), steps)
    ensures var end := Run(Next(w, Deactivate(id, true)), steps);
      && id in end.decisions && (end.decisions[id].1.DecisionOver? <==> StopUnbanning(id) in steps)
      && forall chat :: Enabled(end, UnbanChat(id, chat)) <==> MarkerDone(steps, id) && StopUnbanning(id) !in steps
  {
    StaysCommitted(Next(w, Deactivate(id, true)), steps, id);
  }

  /** The chats unbanned are exactly those whose calls were made. */
  lemma {:induction false} UnbannedAreTheCalls(w: World, steps: seq<Step>, chat: int)
    requires Schedule(w, steps)
    ensures chat in Run(w, steps).unbanned <==> chat in w.unbanned || exists id :: UnbanChat(id, chat) in steps
    decreases |steps|
  {
    if steps != [] {
      var s := steps[0];
      UnbannedAreTheCalls(Next(w, s), steps[1..], chat);
      assert chat in Next(w, s).unbanned <==> chat in w.unbanned || exists id :: s == UnbanChat(id, chat);
      hide Next, Enabled;
      assert steps == [s] + steps[1..];
      assert forall x: Step :: x in steps <==> x == s || x in steps[1..];
    }
  }

  // ---------------------------------------------------------------------------
  // A tap on its own
  // ---------------------------------------------------------------------------

  /** A decision alone, with no time passing, gets from this tap to the verdict. */
  ghost predicate DecidesAtOnce(w: World, ban: BanId, action: Action, reviewer: int) {
    exists id, steps ::
      && LeadsToVerdict(w, steps, id, ban, action, reviewer)
      && forall i :: 0 <= i < |steps| ==> OfDecision(steps[i], id)
  }

  /** The guards of `on_decision`, with the lock of 12 hours that the ban's owner, if known, is exempt from. */
  ghost predicate MayDecide(w: World, ban: BanId, reviewer: int) {
    && ban in w.bans && w.bans[ban].active && w.bans[ban].review.Some? && w.bans[ban].rejectedAt.None?
    && (|| w.bans[ban].adminId == 0 || reviewer == w.bans[ban].adminId
        || w.now - w.bans[ban].review.value.at >= 12.0 * 3600.0)
  }

  /** Short of a verdict: not begun, tapped and not yet read, or turned away. */
  ghost predicate TurnedAway(start: World, w: World, id: nat, ban: BanId, reviewer: int) {
    if id !in w.decisions then w == start
    else match w.decisions[id].1
      case Tapped(action, r) => w.decisions[id].0 == ban && w == start.(decisions := w.decisions) && r == reviewer
      case TidyingUp => true
      case DecisionOver => true
      case _ => false
  }

  lemma {:induction false} StaysTurnedAway(start: World, w: World, s: Step, id: nat, ban: BanId, action: Action,
                                           reviewer: int)
    requires TurnedAway(start, w, id, ban, reviewer) && Enabled(w, s) && OfDecision(s, id)
    requires s.Tap? ==> s == Tap(id, ButtonData(action, ban), reviewer)
    requires !MayDecide(start, ban, reviewer)
    ensures TurnedAway(start, Next(w, s), id, ban, reviewer)
  {
    ApproveButtonWorksIff(ban);
    RejectButtonIsDead(ban);
    hide ButtonData, Dispatch;
  }

  lemma {:induction false} AlwaysTurnedAway(start: World, w: World, steps: seq<Step>, id: nat, ban: BanId,
                                            action: Action, reviewer: int)
    requires TurnedAway(start, w, id, ban, reviewer) && Schedule(w, steps) && !MayDecide(start, ban, reviewer)
    requires TapsAreBy(steps, id, ButtonData(action, ban), reviewer)
    requires forall i :: 0 <= i < |steps| ==> OfDecision(steps[i], id)
    ensures TurnedAway(start, Run(w, steps), id, ban, reviewer)
    decreases |steps|
  {
    if steps != [] {
      StaysTurnedAway(start, w, steps[0], id, ban, action, reviewer);
      hide Next, Enabled, TurnedAway, ButtonData;
      AlwaysTurnedAway(start, Next(w, steps[0]), steps[1..], id, ban, action, reviewer);
    }
  }

  lemma {:induction false} TapAndRead(w: World, ban: BanId, reviewer: int) returns (id: nat, steps: seq<Step>)
    requires MayDecide(w, ban, reviewer) && Dispatch(ButtonData(Approve, ban)) == Some((Approve, ban))
    ensures LeadsToVerdict(w, steps, id, ban, Approve, reviewer)
    ensures forall i :: 0 <= i < |steps| ==> OfDecision(steps[i], id)
  {
    id := UnusedId(w.decisions.Keys);
    var tap := Tap(id, ButtonData(Approve, ban), reviewer);
    hide ButtonData, Dispatch;
    var w1 := Next(w, tap);
    assert w1.decisions[id] == (ban, Tapped(Approve, reviewer));
    OneStep(w1, ReadTap(id, true));
    Prepend(w, tap, [ReadTap(id, true)]);
    steps := [tap] + [ReadTap(id, true)];
    assert Next(w1, ReadTap(id, true)).decisions[id] == (ban, FetchingGroups);
  }

  /**
   A tap on a button of the card leads to its verdict at once if and only if the ban is active
   with a pending review and was never rejected, the button works, and the reviewer owns the
   ban, nobody does, or the review is 12 hours old.
   */
  lemma {:induction false} DecidesAtOnceIff(w: World, ban: BanId, action: Action, reviewer: int)
    ensures DecidesAtOnce(w, ban, action, reviewer)
            <==> MayDecide(w, ban, reviewer) && Dispatch(ButtonData(action, ban)).Some?
  {
    ApproveButtonWorksIff(ban);
    RejectButtonIsDead(ban);
    hide ButtonData, Dispatch;
    if MayDecide(w, ban, reviewer) && Dispatch(ButtonData(action, ban)).Some? {
      var id, steps := TapAndRead(w, ban, reviewer);
      assert DecidesAtOnce(w, ban, action, reviewer);
    } else {
      forall id, steps | id !in w.decisions && Schedule(w, steps)
                         && TapsAreBy(steps, id, ButtonData(action, ban), reviewer)
                         && forall i :: 0 <= i < |steps| ==> OfDecision(steps[i], id)
        ensures !LeadsToVerdict(w, steps, id, ban, action, reviewer)
      {
        if Dispatch(ButtonData(action, ban)).Some? {
          AlwaysTurnedAway(w, w, steps, id, ban, action, reviewer);
        } else {
          NeverBegins(w, steps, id, ButtonData(action, ban), reviewer);
        }
      }
    }
  }

  /**
   Any callback data that the handler takes, not only a button's: once the ban has been read the
   decision is on its way to the verdict it asks for, to tidying up a card left behind, or over,
   and nothing else has changed.
   */
  lemma {:induction false} HandlerDecides(w: World, id: nat, data: string, action: Action, ban: BanId, reviewer: int)
    requires id !in w.decisions && Dispatch(data) == Some((action, ban)) && ban in w.bans
    ensures var tap := Tap(id, data, reviewer);
      && Enabled(w, tap) && Enabled(Next(w, tap), ReadTap(id, true))
      && Next(Next(w, tap), ReadTap(id, true)) == w.(decisions := w.decisions[id := (ban,
           if MayDecide(w, ban, reviewer) then (if action == Approve then FetchingGroups else Rejecting)
           else if !w.bans[ban].active && w.bans[ban].review.Some? then TidyingUp
           else DecisionOver)])
    ensures Verdict(action) == if action == Approve then FetchingGroups else Rejecting
  {
    hide Dispatch;
    var w1 := Next(w, Tap(id, data, reviewer));
    assert w1 == w.(decisions := w.decisions[id := (ban, Tapped(action, reviewer))]);
  }

  /** The answer of the call a step awaits. */
  predicate Fails(s: Step) {
    match s
    case ReadGate(_, ok) => !ok
    case Unblock(_, ok) => !ok
    case Post(_, _, ok, _) => !ok
    case Claim(_, ok) => !ok
    case Discard(_, ok) => !ok
    case ReadTap(_, ok) => !ok
    case TidyUp(_, ok) => !ok
    case FetchGroups(_, ok) => !ok
    case Deactivate(_, ok) => !ok
    case ClearApproved(_, ok) => !ok
    case SetRejected(_, ok) => !ok
    case ClearRejected(_, ok) => !ok
    case _ => false
  }

  /** A call that fails leaves the ban records, the slots, the posted cards and the chats as they were. */
  lemma {:induction false} FailuresChangeNothing(w: World, s: Step)
    requires Enabled(w, s) && Fails(s)
    ensures var w' := Next(w, s);
      && w'.bans == w.bans && w'.slotLog == w.slotLog && w'.unbanned == w.unbanned && w'.now == w.now
      && w'.posted == w.posted && w'.held == w.held && w'.deleted == w.deleted
  {
  }

  /**
   And it ends its submission or decision, except that a post may be tried again from the
   message's gate, a lost claim discards its card, an approval goes on to the fan-out without
   its marker step, and a rejection still resolves the review.
   */
  lemma {:induction false} FailuresGiveUp(w: World, s: Step)
    requires Enabled(w, s) && Fails(s)
    ensures var w' := Next(w, s);
      if OfDecision(s, s.id) then
        w'.decisions[s.id].1 == (if s.ClearApproved? then Unbanning
                                 else if s.SetRejected? then ClearingRejected
                                 else DecisionOver)
      else
        && w'.submissions[s.id].1 == (if s.Post? && s.retry then AtGate(Sending)
                                      else if s.Claim? then Discarding(w.submissions[s.id].1.card)
                                      else SubmissionOver)
        && w'.leaked == w.leaked + if s.Discard? then {w.submissions[s.id].1.card} else {}
  {
  }

  /** A tap on the card of an inactive ban resolves the review that was left behind, and nothing else. */
  lemma {:induction false} LeftoverCardIsTidied(w: World, ban: BanId, reviewer: int)
    returns (id: nat, steps: seq<Step>)
    requires SolidToEnd(ban) && ban in w.bans && !w.bans[ban].active && w.bans[ban].review.Some?
    ensures id !in w.decisions && Schedule(w, steps)
    ensures Run(w, steps) == w.(
            bans := w.bans[ban := Ban(false, w.bans[ban].adminId, None, w.bans[ban].rejectedAt)],
            decisions := w.decisions[id := (ban, DecisionOver)],
            slotLog := w.slotLog + [Cleared(ban)])
  {
    id := UnusedId(w.decisions.Keys);
    ApproveButtonWorksIff(ban);
    var tap := Tap(id, ButtonData(Approve, ban), reviewer);
    hide ButtonData, Dispatch;
    var w1 := Next(w, tap);
    var w2 := Next(w1, ReadTap(id, true));
    assert w2.decisions[id] == (ban, TidyingUp);
    OneStep(w2, TidyUp(id, true));
    Prepend(w1, ReadTap(id, true), [TidyUp(id, true)]);
    Prepend(w, tap, [ReadTap(id, true)] + [TidyUp(id, true)]);
    steps := [tap] + ([ReadTap(id, true)] + [TidyUp(id, true)]);
    assert Next(w2, TidyUp(id, true)).decisions == w.decisions[id := (ban, DecisionOver)];
  }

  // ---------------------------------------------------------------------------
  // A submission on its own
  // ---------------------------------------------------------------------------

  /** The steps one submission for `ban` takes. */
  predicate OfOwnSubmission(s: Step, id: nat, ban: BanId) {
    match s
    case Submit(k, b) => k == id && b == ban
    case ReadGate(k, _) => k == id
    case Unblock(k, _) => k == id
    case Post(k, _, _, _) => k == id
    case Claim(k, _) => k == id
    case Discard(k, _) => k == id
    case _ => false
  }

  ghost predicate ClaimedSince(w: World, end: World, ban: BanId) {
    |w.slotLog| < |end.slotLog| && exists card :: end.slotLog[|end.slotLog| - 1] == Claimed(ban, card)
  }

  /** A submission alone, with no time passing, claims the ban's slot. */
  ghost predicate AcceptedAtOnce(w: World, ban: BanId) {
    exists id, steps :: AcceptedBy(w, ban, id, steps)
  }

  ghost predicate AcceptedBy(w: World, ban: BanId, id: nat, steps: seq<Step>) {
    && id !in w.submissions && Schedule(w, steps)
    && (forall i :: 0 <= i < |steps| ==> OfOwnSubmission(steps[i], id, ban))
    && ClaimedSince(w, Run(w, steps), ban)
  }

  /** The gates: an active ban, no review of the last 72 hours, no rejection of the last 24. */
  ghost predicate MaySubmit(w: World, ban: BanId) {
    && ban in w.bans && w.bans[ban].active
    && (w.bans[ban].review.Some? ==> w.bans[ban].review.value.at < w.now - 72.0 * 3600.0)
    && (w.bans[ban].rejectedAt.Some? ==> w.now - w.bans[ban].rejectedAt.value >= 24.0 * 3600.0)
  }

  /** `w` with the review of a ban and one submission in the given phase. */
  function Midway(w: World, id: nat, ban: BanId, review: Option<Review>, phase: Submission): World
    requires ban in w.bans
  {
    w.(bans := w.bans[ban := w.bans[ban].(review := review)], submissions := w.submissions[id := (ban, phase)])
  }

  lemma {:induction false} FromFreeSlot(w: World, id: nat, ban: BanId, card: nat) returns (steps: seq<Step>)
    requires MaySubmit(w, ban) && w.bans[ban].review.None? && card !in w.posted
    requires id in w.submissions && w.submissions[id] == (ban, AtGate(Sending))
    ensures forall i :: 0 <= i < |steps| ==> OfOwnSubmission(steps[i], id, ban)
    ensures Schedule(w, steps)
    ensures Run(w, steps) == Midway(w, id, ban, Some(Review(card, w.now)), SubmissionOver).(
            posted := w.posted + {card}, held := w.held + {card}, slotLog := w.slotLog + [Claimed(ban, card)])
  {
    var w1 := Next(w, ReadGate(id, true));
    assert w1.submissions[id] == (ban, Posting);
    var w2 := Next(w1, Post(id, card, true, false));
    OneStep(w2, Claim(id, true));
    Prepend(w1, Post(id, card, true, false), [Claim(id, true)]);
    Prepend(w, ReadGate(id, true), [Post(id, card, true, false)] + [Claim(id, true)]);
    steps := [ReadGate(id, true)] + ([Post(id, card, true, false)] + [Claim(id, true)]);
    assert Next(w2, Claim(id, true)).submissions == w.submissions[id := (ban, SubmissionOver)];
  }

  /** From the deep link to the message, clearing a stale review on the way. */
  lemma {:induction false} ToTheMessage(w: World, id: nat, ban: BanId) returns (steps: seq<Step>)
    requires MaySubmit(w, ban) && id !in w.submissions
    ensures forall i :: 0 <= i < |steps| ==> OfOwnSubmission(steps[i], id, ban)
    ensures Schedule(w, steps)
    ensures Run(w, steps) == Midway(w, id, ban, None, AtGate(Sending)).(
            slotLog := if w.bans[ban].review.Some? then w.slotLog + [Cleared(ban)] else w.slotLog)
  {
    var w1 := Next(w, Submit(id, ban));
    var w2 := Next(w1, ReadGate(id, true));
    if w.bans[ban].review.None? {
      OneStep(w1, ReadGate(id, true));
      Prepend(w, Submit(id, ban), [ReadGate(id, true)]);
      steps := [Submit(id, ban)] + [ReadGate(id, true)];
      assert w2.submissions == w.submissions[id := (ban, AtGate(Sending))];
      assert w.bans[ban := w.bans[ban].(review := None)] == w.bans;
    } else {
      assert w2.submissions[id] == (ban, Unblocking(Opening, w.bans[ban].rejectedAt));
      OneStep(w2, Unblock(id, true));
      Prepend(w1, ReadGate(id, true), [Unblock(id, true)]);
      Prepend(w, Submit(id, ban), [ReadGate(id, true)] + [Unblock(id, true)]);
      steps := [Submit(id, ban)] + ([ReadGate(id, true)] + [Unblock(id, true)]);
      assert Next(w2, Unblock(id, true)).submissions == w.submissions[id := (ban, AtGate(Sending))];
    }
  }

  /**
   A submission whose calls succeed, in full: its card is posted and holds the slot since now,
   a stale review is cleared first, and nothing else has changed.
   */
  lemma {:induction false} SubmissionIsCarriedOut(w: World, id: nat, ban: BanId, card: nat) returns (steps: seq<Step>)
    requires MaySubmit(w, ban) && id !in w.submissions && card !in w.posted
    ensures forall i :: 0 <= i < |steps| ==> OfOwnSubmission(steps[i], id, ban)
    ensures Schedule(w, steps)
    ensures Run(w, steps) == Midway(w, id, ban, Some(Review(card, w.now)), SubmissionOver).(
            posted := w.posted + {card},
            held := w.held + {card},
            slotLog := (if w.bans[ban].review.Some? then w.slotLog + [Cleared(ban)] else w.slotLog)
                       + [Claimed(ban, card)])
  {
    hide Next, Enabled, Schedule, Run, OfOwnSubmission;
    var before := ToTheMessage(w, id, ban);
    var mid := Run(w, before);
    var after := FromFreeSlot(mid, id, ban, card);
    Concatenated(w, before, after);
    steps := before + after;
    assert Run(mid, after).bans == w.bans[ban := w.bans[ban].(review := Some(Review(card, w.now)))];
    assert Run(mid, after).submissions == w.submissions[id := (ban, SubmissionOver)];
  }

  /** A submission that finds the slot taken, or whose claim fails, deletes its own card and changes nothing else. */
  lemma {:induction false} LoserDiscards(w: World, id: nat, ban: BanId, card: nat, ok: bool)
    requires ban in w.bans && id in w.submissions && w.submissions[id] == (ban, Claiming(card))
    requires ok ==> w.bans[ban].review.Some?
    ensures Enabled(w, Claim(id, ok)) && Enabled(Next(w, Claim(id, ok)), Discard(id, true))
    ensures Next(Next(w, Claim(id, ok)), Discard(id, true))
         == w.(submissions := w.submissions[id := (ban, SubmissionOver)], deleted := w.deleted + {card})
  {
    assert Next(w, Claim(id, ok)) == w.(submissions := w.submissions[id := (ban, Discarding(card))]);
  }

  /** Short of posting a card: the gate that stands in the way has not been passed. */
  ghost predicate Gated(start: World, w: World, id: nat, ban: BanId) {
    && w.now == start.now && (ban in w.bans <==> ban in start.bans)
    && (|w.slotLog| > |start.slotLog| ==> w.slotLog[|w.slotLog| - 1] == Cleared(ban))
    && (ban in w.bans ==>
          && w.bans[ban].active == start.bans[ban].active && w.bans[ban].rejectedAt == start.bans[ban].rejectedAt
          && (w.bans[ban].review == start.bans[ban].review || CooldownRemaining(w.bans[ban].rejectedAt, w.now).Some?))
    && (id in w.submissions ==>
          && w.submissions[id].0 == ban && ban in w.bans
          && match w.submissions[id].1
             case AtGate(_) => true
             case SubmissionOver => true
             case Unblocking(_, rejectedAt) =>
               rejectedAt == w.bans[ban].rejectedAt && CooldownRemaining(rejectedAt, w.now).Some?
             case _ => false)
  }

  lemma {:induction false} StaysGated(start: World, w: World, s: Step, id: nat, ban: BanId)
    requires !MaySubmit(start, ban) && Gated(start, w, id, ban) && Enabled(w, s) && OfOwnSubmission(s, id, ban)
    ensures Gated(start, Next(w, s), id, ban)
  {
  }

  lemma {:induction false} AlwaysGated(start: World, w: World, steps: seq<Step>, id: nat, ban: BanId)
    requires !MaySubmit(start, ban) && Gated(start, w, id, ban) && Schedule(w, steps)
    requires forall i :: 0 <= i < |steps| ==> OfOwnSubmission(steps[i], id, ban)
    ensures Gated(start, Run(w, steps), id, ban)
    decreases |steps|
  {
    if steps != [] {
      StaysGated(start, w, steps[0], id, ban);
      hide Next, Enabled, Gated, MaySubmit;
      AlwaysGated(start, Next(w, steps[0]), steps[1..], id, ban);
    }
  }

  /**
   An appeal is accepted at once if and only if its ban is active, no review of it is younger
   than 72 hours and no rejection younger than 24.
   */
  lemma {:induction false} AcceptedAtOnceIff(w: World, ban: BanId)
    ensures AcceptedAtOnce(w, ban) <==> MaySubmit(w, ban)
  {
    if MaySubmit(w, ban) {
      var id := UnusedId(w.submissions.Keys);
      var card := UnusedId(w.posted);
      var steps := SubmissionIsCarriedOut(w, id, ban, card);
      assert Run(w, steps).slotLog[|Run(w, steps).slotLog| - 1] == Claimed(ban, card);
      assert AcceptedBy(w, ban, id, steps);
    } else {
      forall id, steps ensures !AcceptedBy(w, ban, id, steps) {
        if id !in w.submissions && Schedule(w, steps)
            && forall i :: 0 <= i < |steps| ==> OfOwnSubmission(steps[i], id, ban) {
          AlwaysGated(w, w, steps, id, ban);
        }
      }
    }
  }
}
