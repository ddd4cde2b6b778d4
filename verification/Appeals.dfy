/**
 The appeal protocol of one banned user: submissions
 (tcbot/modules/helper/workflows/appeal_submit_flow.py, `_start` and `_on_message`), staff
 decisions (appeal_review_flow.py, `on_decision`, `_approve_appeal`, `_reject_appeal`) and the
 conditional updates of tcbot/database/bans_db.py they are built from.

 Any number of submissions and decisions interleave; each is suspended at every database and
 Telegram call, and each such call may fail without effect. Times are seconds. No new ban is
 issued to the user meanwhile.
 */
module Appeals {
  import opened AppealButtons
  import opened FiniteSets
  import opened Wrappers

  const STALE_REVIEW_WINDOW := 72.0 * 3600.0
  const REJECTION_COOLDOWN := 24.0 * 3600.0
  const LOCK_WINDOW := 12.0 * 3600.0

  /** The pending-review marker: the card's message and when the slot was claimed. */
  datatype Review = Review(card: nat, at: real)

  type BanId = string

  datatype Ban = Ban(active: bool, adminId: int, review: Option<Review>, rejectedAt: Option<real>)

  predicate IsStaleReview(review: Review, now: real) {
    review.at < now - STALE_REVIEW_WINDOW
  }

  /** Whole hours left in the rejection cooldown, plus one; None when it is over. */
  function CooldownRemaining(rejectedAt: Option<real>, now: real): (hours: Option<int>)
    ensures hours.Some? <==> rejectedAt.Some? && now - rejectedAt.value < REJECTION_COOLDOWN
    ensures hours.Some? && now >= rejectedAt.value ==>
              var left := REJECTION_COOLDOWN - (now - rejectedAt.value);
              (hours.value - 1) as real * 3600.0 <= left < hours.value as real * 3600.0
    ensures rejectedAt.Some? && now < rejectedAt.value ==> hours == Some(25)
  {
    if rejectedAt.None? then None
    else
      var elapsed := if now < rejectedAt.value then 0.0 else now - rejectedAt.value;
      if elapsed >= REJECTION_COOLDOWN then None
      else Some(((REJECTION_COOLDOWN - elapsed) / 3600.0).Floor + 1)
  }

  /** A missing or zero ban owner locks nobody out. */
  predicate ReviewerLockedOut(review: Review, adminId: int, reviewer: int, now: real) {
    adminId != 0 && reviewer != adminId && now - review.at < LOCK_WINDOW
  }

  // ---------------------------------------------------------------------------
  // The protocol
  // ---------------------------------------------------------------------------

  /** The same gates stand at the deep link and at the message. */
  datatype Stage = Opening | Sending

  datatype Submission =
    | AtGate(stage: Stage)
    | Unblocking(stage: Stage, rejectedAt: Option<real>)
    | Posting
    | Claiming(card: nat)
    | Discarding(card: nat)
    | SubmissionOver

  datatype Decision =
    | Tapped(action: Action, reviewer: int)
    | TidyingUp
    | FetchingGroups
    | Deactivating
    | ClearingApproved
    | Unbanning
    | Rejecting
    | ClearingRejected
    | DecisionOver

  datatype SlotEvent = Claimed(ban: BanId, card: nat) | Cleared(ban: BanId)

  /** `held`, `deleted` and `leaked` sort the posted cards; `slotLog` is the history of the slots;
      `unbanned` are the chats an approval has unbanned the user in. */
  datatype World = World(
    now: real,
    bans: map<BanId, Ban>,
    submissions: map<nat, (BanId, Submission)>,
    decisions: map<nat, (BanId, Decision)>,
    posted: set<nat>,
    held: set<nat>,
    deleted: set<nat>,
    leaked: set<nat>,
    slotLog: seq<SlotEvent>,
    unbanned: set<int>)

  datatype Step =
    | Submit(id: nat, ban: BanId)
    | ReadGate(id: nat, ok: bool)
    | Unblock(id: nat, ok: bool)
    | Post(id: nat, card: nat, ok: bool, retry: bool)
    | Claim(id: nat, ok: bool)
    | Discard(id: nat, ok: bool)
    | Tap(id: nat, data: string, reviewer: int)
    | ReadTap(id: nat, ok: bool)
    | TidyUp(id: nat, ok: bool)
    | FetchGroups(id: nat, ok: bool)
    | Deactivate(id: nat, ok: bool)
    | ClearApproved(id: nat, ok: bool)
    | UnbanChat(id: nat, chat: int)
    | StopUnbanning(id: nat)
    | SetRejected(id: nat, ok: bool)
    | ClearRejected(id: nat, ok: bool)
    | Wait(until: real)

  ghost predicate InSubmission(w: World, id: nat) {
    id in w.submissions && w.submissions[id].0 in w.bans
  }

  ghost predicate InDecision(w: World, id: nat) {
    id in w.decisions && w.decisions[id].0 in w.bans
  }

  ghost predicate Enabled(w: World, s: Step) {
    match s
    case Submit(id, ban) => id !in w.submissions && ban in w.bans
    case ReadGate(id, _) => InSubmission(w, id) && w.submissions[id].1.AtGate?
    case Unblock(id, _) => InSubmission(w, id) && w.submissions[id].1.Unblocking?
    case Post(id, card, ok, _) => InSubmission(w, id) && w.submissions[id].1.Posting? && (ok ==> card !in w.posted)
    case Claim(id, _) => InSubmission(w, id) && w.submissions[id].1.Claiming?
    case Discard(id, _) => InSubmission(w, id) && w.submissions[id].1.Discarding?
    case Tap(id, _, _) => id !in w.decisions
    case ReadTap(id, _) => InDecision(w, id) && w.decisions[id].1.Tapped?
    case TidyUp(id, _) => InDecision(w, id) && w.decisions[id].1.TidyingUp?
    case FetchGroups(id, _) => InDecision(w, id) && w.decisions[id].1.FetchingGroups?
    case Deactivate(id, _) => InDecision(w, id) && w.decisions[id].1.Deactivating?
    case ClearApproved(id, _) => InDecision(w, id) && w.decisions[id].1.ClearingApproved?
    case UnbanChat(id, _) => InDecision(w, id) && w.decisions[id].1.Unbanning?
    case StopUnbanning(id) => InDecision(w, id) && w.decisions[id].1.Unbanning?
    case SetRejected(id, _) => InDecision(w, id) && w.decisions[id].1.Rejecting?
    case ClearRejected(id, _) => InDecision(w, id) && w.decisions[id].1.ClearingRejected?
    case Wait(until) => until >= w.now
  }

  /** After the review gate: the cooldown of the ban as it was read, then on to the next stage. */
  function AfterReviewGate(stage: Stage, rejectedAt: Option<real>, now: real): Submission {
    if CooldownRemaining(rejectedAt, now).Some? then SubmissionOver
    else if stage.Opening? then AtGate(Sending)
    else Posting
  }

  function GateVerdict(stage: Stage, ban: Ban, now: real): Submission {
    if !ban.active then SubmissionOver
    else if ban.review.Some? then
      if IsStaleReview(ban.review.value, now) then Unblocking(stage, ban.rejectedAt) else SubmissionOver
    else AfterReviewGate(stage, ban.rejectedAt, now)
  }

  function TapVerdict(action: Action, reviewer: int, ban: Ban, now: real): Decision {
    if !ban.active then
      if ban.review.Some? then TidyingUp else DecisionOver
    else if ban.rejectedAt.Some? || ban.review.None? then DecisionOver
    else if ReviewerLockedOut(ban.review.value, ban.adminId, reviewer, now) then DecisionOver
    else if action.Approve? then FetchingGroups
    else Rejecting
  }

  function Submitting(w: World, id: nat, phase: Submission): World
    requires id in w.submissions
  {
    w.(submissions := w.submissions[id := (w.submissions[id].0, phase)])
  }

  function Deciding(w: World, id: nat, phase: Decision): World
    requires id in w.decisions
  {
    w.(decisions := w.decisions[id := (w.decisions[id].0, phase)])
  }

  /** `clear_review`. */
  function ReviewCleared(w: World, ban: BanId, ok: bool): World
    requires ban in w.bans
  {
    if ok then w.(bans := w.bans[ban := w.bans[ban].(review := None)], slotLog := w.slotLog + [Cleared(ban)]) else w
  }

  /** `set_review_if_absent`: matches only while no review is stored. */
  function ReviewSet(w: World, ban: BanId, card: nat): World
    requires ban in w.bans
  {
    w.(bans := w.bans[ban := w.bans[ban].(review := Some(Review(card, w.now)))],
       held := w.held + {card},
       slotLog := w.slotLog + [Claimed(ban, card)])
  }

  /** A callback query that no handler takes, or for a ban that does not exist, changes nothing. */
  function Begun(w: World, id: nat, data: string, reviewer: int): World {
    match Dispatch(data)
    case Some((action, ban)) =>
      if ban in w.bans then w.(decisions := w.decisions[id := (ban, Tapped(action, reviewer))]) else w
    case None => w
  }

  function Next(w: World, s: Step): World
    requires Enabled(w, s)
  {
    match s
    case Submit(id, ban) => w.(submissions := w.submissions[id := (ban, AtGate(Opening))])
    case ReadGate(id, ok) =>
      var (ban, phase) := w.submissions[id];
      Submitting(w, id, if ok then GateVerdict(phase.stage, w.bans[ban], w.now) else SubmissionOver)
    case Unblock(id, ok) =>
      var (ban, phase) := w.submissions[id];
      Submitting(ReviewCleared(w, ban, ok), id,
                 if ok then AfterReviewGate(phase.stage, phase.rejectedAt, w.now) else SubmissionOver)
    case Post(id, card, ok, retry) =>
      if ok then Submitting(w, id, Claiming(card)).(posted := w.posted + {card})
      else Submitting(w, id, if retry then AtGate(Sending) else SubmissionOver)
    case Claim(id, ok) =>
      var (ban, phase) := w.submissions[id];
      if ok && w.bans[ban].review.None?
      then Submitting(ReviewSet(w, ban, phase.card), id, SubmissionOver)
      else Submitting(w, id, Discarding(phase.card))
    case Discard(id, ok) =>
      var card := w.submissions[id].1.card;
      if ok then Submitting(w, id, SubmissionOver).(deleted := w.deleted + {card})
      else Submitting(w, id, SubmissionOver).(leaked := w.leaked + {card})
    case Tap(id, data, reviewer) => Begun(w, id, data, reviewer)
    case ReadTap(id, ok) =>
      var (ban, phase) := w.decisions[id];
      Deciding(w, id, if ok then TapVerdict(phase.action, phase.reviewer, w.bans[ban], w.now) else DecisionOver)
    case TidyUp(id, ok) => Deciding(ReviewCleared(w, w.decisions[id].0, ok), id, DecisionOver)
    case FetchGroups(id, ok) => Deciding(w, id, if ok then Deactivating else DecisionOver)
    case Deactivate(id, ok) =>
      if ok then Deciding(w, id, ClearingApproved).(bans := map b | b in w.bans :: w.bans[b].(active := false))
      else Deciding(w, id, DecisionOver)
    case ClearApproved(id, ok) => Deciding(ReviewCleared(w, w.decisions[id].0, ok), id, Unbanning)
    case UnbanChat(_, chat) => w.(unbanned := w.unbanned + {chat})
    case StopUnbanning(id) => Deciding(w, id, DecisionOver)
    case SetRejected(id, ok) =>
      var ban := w.decisions[id].0;
      var rejected := w.(bans := w.bans[ban := w.bans[ban].(rejectedAt := Some(w.now))]);
      Deciding(if ok then rejected else w, id, ClearingRejected)
    case ClearRejected(id, ok) => Deciding(ReviewCleared(w, w.decisions[id].0, ok), id, DecisionOver)
    case Wait(until) => w.(now := until)
  }

  ghost predicate Schedule(w: World, steps: seq<Step>)
    decreases |steps|
  {
    steps != [] ==> Enabled(w, steps[0]) && Schedule(Next(w, steps[0]), steps[1..])
  }

  ghost function Run(w: World, steps: seq<Step>): World
    requires Schedule(w, steps)
    decreases |steps|
  {
    if steps == [] then w else Run(Next(w, steps[0]), steps[1..])
  }

  /** Nobody is submitting or deciding yet, and no review is pending. */
  ghost predicate Fresh(w: World) {
    && w.submissions == map[] && w.decisions == map[]
    && w.posted == w.held == w.deleted == w.leaked == {} && w.slotLog == [] && w.unbanned == {}
    && forall b :: b in w.bans ==> w.bans[b].review.None?
  }

  // ---------------------------------------------------------------------------
  // The review slot
  // ---------------------------------------------------------------------------

  /** The card whose claim is the last event of the ban's slot, if that event is a claim. */
  function Holder(slotLog: seq<SlotEvent>, ban: BanId): Option<nat> {
    if slotLog == [] then None
    else
      var last := slotLog[|slotLog| - 1];
      if last.ban != ban then Holder(slotLog[..|slotLog| - 1], ban)
      else if last.Claimed? then Some(last.card) else None
  }

  /** Between two claims of one slot there is a clear of it. */
  ghost predicate ClaimsSeparated(slotLog: seq<SlotEvent>) {
    forall i, j | 0 <= i < j < |slotLog| && BothClaim(slotLog[i], slotLog[j]) :: ClearBetween(slotLog, i, j)
  }

  predicate BothClaim(e: SlotEvent, f: SlotEvent) {
    e.Claimed? && f.Claimed? && e.ban == f.ban
  }

  ghost predicate ClearBetween(slotLog: seq<SlotEvent>, i: int, j: int)
    requires 0 <= i < j < |slotLog|
  {
    exists k :: i < k < j && slotLog[k] == Cleared(slotLog[i].ban)
  }

  ghost predicate SlotInv(w: World) {
    && ClaimsSeparated(w.slotLog)
    && forall b :: b in w.bans ==>
        (if w.bans[b].review.Some? then Some(w.bans[b].review.value.card) else None) == Holder(w.slotLog, b)
  }

  lemma {:induction false} ClaimedThenCleared(slotLog: seq<SlotEvent>, ban: BanId, i: int)
    requires 0 <= i < |slotLog| && slotLog[i].Claimed? && slotLog[i].ban == ban && Holder(slotLog, ban).None?
    ensures exists k :: i < k < |slotLog| && slotLog[k] == Cleared(ban)
    decreases |slotLog|
  {
    var n := |slotLog| - 1;
    if slotLog[n] != Cleared(ban) {
      ClaimedThenCleared(slotLog[..n], ban, i);
      var k :| i < k < n && slotLog[..n][k] == Cleared(ban);
      assert slotLog[k] == Cleared(ban);
    }
  }

  lemma {:induction false} LogOneMore(slotLog: seq<SlotEvent>, e: SlotEvent)
    requires ClaimsSeparated(slotLog)
    requires e.Claimed? ==> Holder(slotLog, e.ban).None?
    ensures ClaimsSeparated(slotLog + [e])
    ensures forall b :: Holder(slotLog + [e], b) ==
              if b != e.ban then Holder(slotLog, b) else if e.Claimed? then Some(e.card) else None
  {
    var more := slotLog + [e];
    assert more[..|slotLog|] == slotLog;
    forall i, j | 0 <= i < j < |more| && BothClaim(more[i], more[j])
      ensures ClearBetween(more, i, j)
    {
      if j < |slotLog| {
        assert ClearBetween(slotLog, i, j);
        var k :| i < k < j && slotLog[k] == Cleared(slotLog[i].ban);
        assert more[k] == Cleared(more[i].ban);
      } else {
        ClaimedThenCleared(slotLog, e.ban, i);
        var k :| i < k < |slotLog| && slotLog[k] == Cleared(e.ban);
        assert more[k] == Cleared(more[i].ban);
      }
    }
  }

  /** A clear of one ban's slot, logged, with that review gone. */
  lemma {:induction false} ClearKeepsSlots(w: World, w': World, ban: BanId, ok: bool)
    requires SlotInv(w) && ban in w.bans
    requires w'.bans == ReviewCleared(w, ban, ok).bans && w'.slotLog == ReviewCleared(w, ban, ok).slotLog
    ensures SlotInv(w')
  {
    LogOneMore(w.slotLog, Cleared(ban));
  }

  lemma {:induction false} ClaimKeepsSlots(w: World, w': World, ban: BanId, card: nat)
    requires SlotInv(w) && ban in w.bans && w.bans[ban].review.None?
    requires w'.bans == ReviewSet(w, ban, card).bans && w'.slotLog == ReviewSet(w, ban, card).slotLog
    ensures SlotInv(w')
  {
    LogOneMore(w.slotLog, Claimed(ban, card));
  }

  lemma {:induction false} OtherStepsKeepSlots(w: World, w': World)
    requires SlotInv(w) && w'.slotLog == w.slotLog && w'.bans.Keys == w.bans.Keys
    requires forall b :: b in w.bans ==> w'.bans[b].review == w.bans[b].review
    ensures SlotInv(w')
  {
  }

  lemma {:induction false} StepKeepsSlotInv(w: World, s: Step)
    requires SlotInv(w) && Enabled(w, s)
    ensures SlotInv(Next(w, s))
  {
    hide SlotInv;
    var w' := Next(w, s);
    match s {
      case Unblock(id, ok) => ClearKeepsSlots(w, w', w.submissions[id].0, ok);
      case Claim(id, ok) =>
        var (ban, phase) := w.submissions[id];
        if ok && w.bans[ban].review.None? {
          ClaimKeepsSlots(w, w', ban, phase.card);
        } else {
          OtherStepsKeepSlots(w, w');
        }
      case TidyUp(id, ok) => ClearKeepsSlots(w, w', w.decisions[id].0, ok);
      case ClearApproved(id, ok) => ClearKeepsSlots(w, w', w.decisions[id].0, ok);
      case ClearRejected(id, ok) => ClearKeepsSlots(w, w', w.decisions[id].0, ok);
      case _ => OtherStepsKeepSlots(w, w');
    }
  }

  lemma {:induction false} RunKeepsSlotInv(w: World, steps: seq<Step>)
    requires SlotInv(w) && Schedule(w, steps)
    ensures SlotInv(Run(w, steps))
    decreases |steps|
  {
    if steps != [] {
      StepKeepsSlotInv(w, steps[0]);
      RunKeepsSlotInv(Next(w, steps[0]), steps[1..]);
    }
  }

  /**
   In every interleaving of submissions, decisions and failures, two successful claims of one
   review slot are separated by a clear of it, and the stored review is the card claimed last.
   */
  lemma {:induction false} OneClaimPerClear(w: World, steps: seq<Step>)
    requires Fresh(w) && Schedule(w, steps)
    ensures var end := Run(w, steps);
      && ClaimsSeparated(end.slotLog)
      && forall b :: b in end.bans && end.bans[b].review.Some? ==>
          Holder(end.slotLog, b) == Some(end.bans[b].review.value.card)
  {
    RunKeepsSlotInv(w, steps);
  }

  // ---------------------------------------------------------------------------
  // The cards
  // ---------------------------------------------------------------------------

  /** A submission that has posted a card and not yet settled it. */
  ghost predicate Carries(w: World, id: nat) {
    id in w.submissions && (w.submissions[id].1.Claiming? || w.submissions[id].1.Discarding?)
  }

  ghost predicate Sorted(w: World, card: nat) {
    card in w.held || card in w.deleted || card in w.leaked
  }

  ghost predicate Carried(w: World, card: nat) {
    exists id :: Carries(w, id) && w.submissions[id].1.card == card
  }

  ghost predicate CardInv(w: World) {
    && (forall id :: Carries(w, id) ==> w.submissions[id].1.card in w.posted && !Sorted(w, w.submissions[id].1.card))
    && (forall a, b :: Carries(w, a) && Carries(w, b) && a != b ==> w.submissions[a].1.card != w.submissions[b].1.card)
    && (forall card :: card in w.posted <==> Sorted(w, card) || Carried(w, card))
    && w.held !! w.deleted && w.held !! w.leaked && w.deleted !! w.leaked
  }

  /** Steps that neither post nor settle a card. */
  lemma {:induction false} OtherStepsKeepCards(w: World, w': World, id: nat)
    requires CardInv(w)
    requires w'.posted == w.posted && w'.held == w.held && w'.deleted == w.deleted && w'.leaked == w.leaked
    requires !Carries(w, id) && !Carries(w', id)
    requires forall other :: other != id ==> (other in w.submissions <==> other in w'.submissions)
    requires forall other :: other != id && other in w.submissions ==> w'.submissions[other] == w.submissions[other]
    ensures CardInv(w')
  {
    assert forall other :: Carries(w', other) <==> Carries(w, other);
    forall card ensures Carried(w', card) <==> Carried(w, card) {
      if Carried(w, card) {
        var k :| Carries(w, k) && w.submissions[k].1.card == card;
        assert Carries(w', k);
      }
      if Carried(w', card) {
        var k :| Carries(w', k) && w'.submissions[k].1.card == card;
        assert Carries(w, k);
      }
    }
  }

  lemma {:induction false} PostKeepsCards(w: World, id: nat, card: nat, retry: bool)
    requires CardInv(w) && Enabled(w, Post(id, card, true, retry))
    ensures CardInv(Next(w, Post(id, card, true, retry)))
  {
    var w' := Next(w, Post(id, card, true, retry));
    assert Carries(w', id) && w'.submissions[id].1.card == card && !Carries(w, id);
    assert forall other :: other != id ==> (Carries(w', other) <==> Carries(w, other));
    forall c ensures Carried(w', c) <==> Carried(w, c) || c == card {
      if Carried(w, c) {
        var k :| Carries(w, k) && w.submissions[k].1.card == c;
        assert Carries(w', k);
      }
      if Carried(w', c) && c != card {
        var k :| Carries(w', k) && w'.submissions[k].1.card == c;
        assert Carries(w, k);
      }
    }
  }

  /** A settled card is sorted into exactly one of held, deleted and leaked. */
  lemma {:induction false} SettleKeepsCards(w: World, w': World, id: nat)
    requires CardInv(w) && Carries(w, id) && !Carries(w', id)
    requires var card := w.submissions[id].1.card;
      || (w'.held == w.held + {card} && w'.deleted == w.deleted && w'.leaked == w.leaked)
      || (w'.held == w.held && w'.deleted == w.deleted + {card} && w'.leaked == w.leaked)
      || (w'.held == w.held && w'.deleted == w.deleted && w'.leaked == w.leaked + {card})
    requires w'.posted == w.posted && id in w'.submissions
    requires forall other :: other != id ==> (other in w.submissions <==> other in w'.submissions)
    requires forall other :: other != id && other in w.submissions ==> w'.submissions[other] == w.submissions[other]
    ensures CardInv(w')
  {
    var card := w.submissions[id].1.card;
    assert forall other :: other != id ==> (Carries(w', other) <==> Carries(w, other));
    forall c ensures Carried(w', c) <==> Carried(w, c) && c != card {
      if Carried(w, c) && c != card {
        var k :| Carries(w, k) && w.submissions[k].1.card == c;
        assert Carries(w', k);
      }
      if Carried(w', c) {
        var k :| Carries(w', k) && w'.submissions[k].1.card == c;
        assert Carries(w, k) && k != id;
      }
    }
    assert Carried(w, card);
  }

  /** A lost claim hands the same card on to be discarded. */
  lemma {:induction false} HandOverKeepsCards(w: World, id: nat)
    requires CardInv(w) && Enabled(w, Claim(id, false))
    ensures CardInv(Submitting(w, id, Discarding(w.submissions[id].1.card)))
  {
    var w' := Submitting(w, id, Discarding(w.submissions[id].1.card));
    assert forall other :: Carries(w', other) <==> Carries(w, other);
    assert forall other :: Carries(w, other) ==> w'.submissions[other].1.card == w.submissions[other].1.card;
    forall c ensures Carried(w', c) <==> Carried(w, c) {
      if Carried(w, c) {
        var k :| Carries(w, k) && w.submissions[k].1.card == c;
        assert Carries(w', k);
      }
      if Carried(w', c) {
        var k :| Carries(w', k) && w'.submissions[k].1.card == c;
        assert Carries(w, k);
      }
    }
  }

  lemma {:induction false} StepKeepsCardInv(w: World, s: Step)
    requires CardInv(w) && Enabled(w, s)
    ensures CardInv(Next(w, s))
  {
    hide CardInv;
    var w' := Next(w, s);
    match s {
      case Submit(id, _) => OtherStepsKeepCards(w, w', id);
      case ReadGate(id, _) => OtherStepsKeepCards(w, w', id);
      case Unblock(id, _) => OtherStepsKeepCards(w, w', id);
      case Post(id, card, ok, retry) =>
        if ok {
          PostKeepsCards(w, id, card, retry);
        } else {
          OtherStepsKeepCards(w, w', id);
        }
      case Claim(id, ok) =>
        if ok && w.bans[w.submissions[id].0].review.None? {
          SettleKeepsCards(w, w', id);
        } else {
          HandOverKeepsCards(w, id);
        }
      case Discard(id, _) => SettleKeepsCards(w, w', id);
      case _ => UntouchedCards(w, w');
    }
  }

  lemma {:induction false} UntouchedCards(w: World, w': World)
    requires CardInv(w) && w'.submissions == w.submissions
    requires w'.posted == w.posted && w'.held == w.held && w'.deleted == w.deleted && w'.leaked == w.leaked
    ensures CardInv(w')
  {
    assert forall id :: Carries(w', id) <==> Carries(w, id);
    assert forall card :: Carried(w', card) <==> Carried(w, card);
    assert forall card :: Sorted(w', card) <==> Sorted(w, card);
  }

  lemma {:induction false} RunKeepsCardInv(w: World, steps: seq<Step>)
    requires CardInv(w) && Schedule(w, steps)
    ensures CardInv(Run(w, steps))
    decreases |steps|
  {
    if steps != [] {
      StepKeepsCardInv(w, steps[0]);
      RunKeepsCardInv(Next(w, steps[0]), steps[1..]);
    }
  }

  /**
   In every interleaving, once all submissions are over each posted card has held the slot or
   was deleted, and never both; the only exception is a card whose own deletion failed.
   */
  lemma {:induction false} NoOrphanCard(w: World, steps: seq<Step>)
    requires Fresh(w) && Schedule(w, steps)
    requires forall id :: id in Run(w, steps).submissions ==> Run(w, steps).submissions[id].1.SubmissionOver?
    ensures var end := Run(w, steps);
      && end.posted == end.held + end.deleted + end.leaked
      && end.held !! end.deleted && end.held !! end.leaked && end.deleted !! end.leaked
  {
    assert forall card :: !Carried(w, card) && !Sorted(w, card);
    RunKeepsCardInv(w, steps);
    var end := Run(w, steps);
    forall card ensures card in end.posted <==> Sorted(end, card) {
      assert !Carried(end, card);
    }
  }

  ghost predicate ReviewsHeld(w: World) {
    forall b :: b in w.bans && w.bans[b].review.Some? ==> w.bans[b].review.value.card in w.held
  }

  lemma {:induction false} RunKeepsReviewsHeld(w: World, steps: seq<Step>)
    requires ReviewsHeld(w) && Schedule(w, steps)
    ensures ReviewsHeld(Run(w, steps))
    decreases |steps|
  {
    if steps != [] {
      assert ReviewsHeld(Next(w, steps[0]));
      RunKeepsReviewsHeld(Next(w, steps[0]), steps[1..]);
    }
  }

  /** In every interleaving the card of a stored review still stands: it was posted, and never deleted or given up. */
  lemma {:induction false} PendingCardStands(w: World, steps: seq<Step>, ban: BanId)
    requires Fresh(w) && Schedule(w, steps)
    requires ban in Run(w, steps).bans && Run(w, steps).bans[ban].review.Some?
    ensures var end := Run(w, steps);
      var card := end.bans[ban].review.value.card;
      card in end.posted && card in end.held && card !in end.deleted && card !in end.leaked
  {
    assert forall card :: !Carried(w, card) && !Sorted(w, card);
    RunKeepsCardInv(w, steps);
    RunKeepsReviewsHeld(w, steps);
    assert Sorted(Run(w, steps), Run(w, steps).bans[ban].review.value.card);
  }

  // ---------------------------------------------------------------------------
  // Approval
  // ---------------------------------------------------------------------------

  ghost predicate NoActiveBan(w: World) {
    forall b :: b in w.bans ==> !w.bans[b].active
  }

  /** An approval that got past deactivation leaves no active ban of the user behind. */
  ghost predicate ApprovalInv(w: World) {
    && (forall id :: id in w.decisions && (w.decisions[id].1.ClearingApproved? || w.decisions[id].1.Unbanning?) ==>
        NoActiveBan(w))
    && (w.unbanned != {} ==> NoActiveBan(w))
  }

  /** Without a new ban, a ban record that was deactivated stays so. */
  lemma {:induction false} StaysUnbanned(w: World, s: Step)
    requires NoActiveBan(w) && Enabled(w, s)
    ensures NoActiveBan(Next(w, s))
  {
  }

  lemma {:induction false} StepKeepsApprovalInv(w: World, s: Step)
    requires ApprovalInv(w) && Enabled(w, s)
    ensures ApprovalInv(Next(w, s))
  {
    if NoActiveBan(w) {
      StaysUnbanned(w, s);
      hide *;
    }
  }

  lemma {:induction false} RunKeepsApprovalInv(w: World, steps: seq<Step>)
    requires ApprovalInv(w) && Schedule(w, steps)
    ensures ApprovalInv(Run(w, steps))
    decreases |steps|
  {
    if steps != [] {
      StepKeepsApprovalInv(w, steps[0]);
      RunKeepsApprovalInv(Next(w, steps[0]), steps[1..]);
    }
  }

  /** In every interleaving no chat is, or is about to be, unbanned while a ban record of the user is active. */
  lemma {:induction false} NoSplitBrain(w: World, steps: seq<Step>)
    requires Fresh(w) && Schedule(w, steps)
    ensures var end := Run(w, steps);
      (end.unbanned != {} || exists id, chat :: Enabled(end, UnbanChat(id, chat))) ==> NoActiveBan(end)
  {
    RunKeepsApprovalInv(w, steps);
  }

  /** The steps one decision takes. */
  predicate OfDecision(s: Step, id: nat) {
    match s
    case Tap(d, _, _) => d == id
    case ReadTap(d, _) => d == id
    case TidyUp(d, _) => d == id
    case FetchGroups(d, _) => d == id
    case Deactivate(d, _) => d == id
    case ClearApproved(d, _) => d == id
    case UnbanChat(d, _) => d == id
    case StopUnbanning(d) => d == id
    case SetRejected(d, _) => d == id
    case ClearRejected(d, _) => d == id
    case _ => false
  }

  /** Neither a successful deactivation by this decision, nor a rejection, nor the tidying up of a resolved card. */
  predicate NotByThis(s: Step, id: nat) {
    && s != Deactivate(id, true)
    && !(s.TidyUp? && s.id == id)
    && (s.Tap? && s.id == id && Dispatch(s.data).Some? ==> Dispatch(s.data).value.0 == Approve)
  }

  /** An approval that has not got past deactivation, or is over. */
  ghost predicate Undecided(w: World, id: nat) {
    id in w.decisions ==>
      match w.decisions[id].1
      case Tapped(action, _) => action.Approve?
      case TidyingUp => true
      case FetchingGroups => true
      case Deactivating => true
      case DecisionOver => true
      case _ => false
  }

  function Without(w: World, id: nat): World {
    w.(decisions := w.decisions - {id})
  }

  function Erased(steps: seq<Step>, id: nat): seq<Step> {
    if steps == [] then [] else (if OfDecision(steps[0], id) then [] else [steps[0]]) + Erased(steps[1..], id)
  }

  lemma {:induction false} OwnStepIsInvisible(w: World, s: Step, id: nat)
    requires Undecided(w, id) && Enabled(w, s) && OfDecision(s, id) && NotByThis(s, id)
    ensures Without(Next(w, s), id) == Without(w, id) && Undecided(Next(w, s), id)
  {
  }

  lemma {:induction false} DecidingWithout(w: World, other: nat, phase: Decision, id: nat)
    requires other in w.decisions && other != id
    ensures Deciding(Without(w, id), other, phase) == Without(Deciding(w, other, phase), id)
  {
    assert w.decisions[other := (w.decisions[other].0, phase)] - {id}
        == (w.decisions - {id})[other := (w.decisions[other].0, phase)];
  }

  lemma {:induction false} BegunWithout(w: World, other: nat, data: string, reviewer: int, id: nat)
    requires other != id
    ensures Begun(Without(w, id), other, data, reviewer) == Without(Begun(w, other, data, reviewer), id)
  {
    if Dispatch(data).Some? {
      var tapped := (Dispatch(data).value.1, Tapped(Dispatch(data).value.0, reviewer));
      assert w.decisions[other := tapped] - {id} == (w.decisions - {id})[other := tapped];
    }
  }

  predicate OfSubmission(s: Step) {
    s.Submit? || s.ReadGate? || s.Unblock? || s.Post? || s.Claim? || s.Discard?
  }

  lemma {:induction false} SubmissionStepIsTheSame(w: World, s: Step, id: nat)
    requires Enabled(w, s) && OfSubmission(s)
    ensures Enabled(Without(w, id), s) && Next(Without(w, id), s) == Without(Next(w, s), id)
    ensures Next(w, s).decisions == w.decisions
  {
  }

  lemma {:induction false} DecisionStepIsTheSame(w: World, s: Step, id: nat)
    requires Enabled(w, s) && !OfSubmission(s) && !OfDecision(s, id)
    ensures Enabled(Without(w, id), s) && Next(Without(w, id), s) == Without(Next(w, s), id)
    ensures id in Next(w, s).decisions <==> id in w.decisions
    ensures id in w.decisions ==> Next(w, s).decisions[id] == w.decisions[id]
  {
    if s.Tap? {
      BegunWithout(w, s.id, s.data, s.reviewer, id);
    } else if !s.Wait? {
      DecidingWithout(w, s.id, Next(w, s).decisions[s.id].1, id);
    }
  }

  lemma {:induction false} OtherStepIsTheSame(w: World, s: Step, id: nat)
    requires Undecided(w, id) && Enabled(w, s) && !OfDecision(s, id)
    ensures Enabled(Without(w, id), s) && Next(Without(w, id), s) == Without(Next(w, s), id)
    ensures Undecided(Next(w, s), id)
  {
    if OfSubmission(s) {
      SubmissionStepIsTheSame(w, s, id);
    } else {
      DecisionStepIsTheSame(w, s, id);
    }
    hide Next, Enabled, Without;
  }

  /**
   An approval that fails at or before deactivation leaves no trace: take its steps out of any
   schedule, and everyone else's run is still a schedule and ends with the same ban records,
   review markers, slot history, cards and unbanned chats.
   */
  lemma {:induction false} AbortedApprovalIsInvisible(w: World, steps: seq<Step>, id: nat)
    requires Undecided(w, id) && Schedule(w, steps)
    requires forall i :: 0 <= i < |steps| ==> NotByThis(steps[i], id)
    ensures Schedule(Without(w, id), Erased(steps, id))
    ensures Run(Without(w, id), Erased(steps, id)) == Without(Run(w, steps), id)
    decreases |steps|
  {
    if steps != [] {
      var s, rest := steps[0], steps[1..];
      if OfDecision(s, id) {
        OwnStepIsInvisible(w, s, id);
        assert Erased(steps, id) == Erased(rest, id);
      } else {
        OtherStepIsTheSame(w, s, id);
        assert Erased(steps, id) == [s] + Erased(rest, id);
        assert Erased(steps, id)[1..] == Erased(rest, id);
      }
      hide Next, Enabled, Without, Undecided;
      AbortedApprovalIsInvisible(Next(w, s), rest, id);
    }
  }

  // ---------------------------------------------------------------------------
  // Which pending reviews can be decided
  // ---------------------------------------------------------------------------

  /** The phase a tap moves to when it leads to a verdict. */
  function Verdict(action: Action): Decision {
    if action.Approve? then FetchingGroups else Rejecting
  }

  /** Some continuation in which this member of staff taps this button of the ban's card leads to the verdict. */
  ghost predicate CanStillDecide(w: World, ban: BanId, action: Action, reviewer: int) {
    exists id, steps :: LeadsToVerdict(w, steps, id, ban, action, reviewer)
  }

  /** The tap that begins decision `id` is of that button and by that member of staff. */
  predicate TapsAreBy(steps: seq<Step>, id: nat, data: string, reviewer: int) {
    forall i :: 0 <= i < |steps| && steps[i].Tap? && steps[i].id == id ==> steps[i] == Tap(id, data, reviewer)
  }

  ghost predicate LeadsToVerdict(w: World, steps: seq<Step>, id: nat, ban: BanId, action: Action, reviewer: int) {
    && id !in w.decisions && Schedule(w, steps) && TapsAreBy(steps, id, ButtonData(action, ban), reviewer)
    && id in Run(w, steps).decisions && Run(w, steps).decisions[id] == (ban, Verdict(action))
  }

  lemma {:induction false} RejectionIsForever(w: World, steps: seq<Step>, ban: BanId)
    requires Schedule(w, steps) && ban in w.bans && w.bans[ban].rejectedAt.Some?
    ensures ban in Run(w, steps).bans && Run(w, steps).bans[ban].rejectedAt.Some?
    decreases |steps|
  {
    if steps != [] {
      RejectionIsForever(Next(w, steps[0]), steps[1..], ban);
    }
  }

  /** A decision that began after the ban was rejected. */
  ghost predicate Powerless(w: World, ban: BanId, id: nat) {
    && ban in w.bans && w.bans[ban].rejectedAt.Some?
    && (id in w.decisions && w.decisions[id].0 == ban ==>
          w.decisions[id].1.Tapped? || w.decisions[id].1.TidyingUp? || w.decisions[id].1.DecisionOver?)
  }

  lemma {:induction false} StaysPowerless(w: World, steps: seq<Step>, ban: BanId, id: nat)
    requires Schedule(w, steps) && Powerless(w, ban, id)
    ensures Powerless(Run(w, steps), ban, id)
    decreases |steps|
  {
    if steps != [] {
      assert Powerless(Next(w, steps[0]), ban, id);
      StaysPowerless(Next(w, steps[0]), steps[1..], ban, id);
    }
  }

  /**
   A rejected ban never gets another verdict: over every later run, however often the user
   appeals again and the slot is claimed, no tap on that ban leads to one.
   */
  lemma {:induction false} NoVerdictAfterRejection(w: World, steps: seq<Step>, ban: BanId,
                                                  action: Action, reviewer: int)
    requires Schedule(w, steps) && ban in w.bans && w.bans[ban].rejectedAt.Some?
    ensures !CanStillDecide(Run(w, steps), ban, action, reviewer)
  {
    RejectionIsForever(w, steps, ban);
    var end := Run(w, steps);
    forall id, more ensures !LeadsToVerdict(end, more, id, ban, action, reviewer) {
      if id !in end.decisions && Schedule(end, more) {
        StaysPowerless(end, more, ban, id);
      }
    }
  }

  /** Wait out the ban owner's lock, tap, and have the ban read. */
  lemma {:induction false} TapAfterLock(w: World, ban: BanId, action: Action, reviewer: int)
    requires ban in w.bans && w.bans[ban].active && w.bans[ban].review.Some? && w.bans[ban].rejectedAt.None?
    requires Dispatch(ButtonData(action, ban)) == Some((action, ban))
    ensures CanStillDecide(w, ban, action, reviewer)
  {
    var unlocked := w.bans[ban].review.value.at + LOCK_WINDOW;
    var until := if unlocked < w.now then w.now else unlocked;
    var id := UnusedId(w.decisions.Keys);
    var tap := Tap(id, ButtonData(action, ban), reviewer);
    hide ButtonData, Dispatch;
    var w1 := w.(now := until);
    var w2 := w1.(decisions := w.decisions[id := (ban, Tapped(action, reviewer))]);
    assert Next(w, Wait(until)) == w1 && Next(w1, tap) == w2;
    var w3 := Next(w2, ReadTap(id, true));
    assert w3.decisions[id] == (ban, Verdict(action));
    assert Schedule(w3, []) && Run(w3, []) == w3;
    Prepend(w2, ReadTap(id, true), []);
    Prepend(w1, tap, [ReadTap(id, true)] + []);
    Prepend(w, Wait(until), [tap] + ([ReadTap(id, true)] + []));
    assert LeadsToVerdict(w, [Wait(until)] + ([tap] + ([ReadTap(id, true)] + [])), id, ban, action, reviewer);
  }

  /** Taps that are not dispatched never begin a decision. */
  lemma {:induction false} NeverBegins(w: World, steps: seq<Step>, id: nat, data: string, reviewer: int)
    requires Schedule(w, steps) && id !in w.decisions
    requires TapsAreBy(steps, id, data, reviewer) && Dispatch(data) == None
    ensures id !in Run(w, steps).decisions
    decreases |steps|
  {
    if steps != [] {
      StaysAbsent(w, steps[0], id, data, reviewer);
      hide Next, Enabled;
      NeverBegins(Next(w, steps[0]), steps[1..], id, data, reviewer);
    }
  }

  lemma {:induction false} StaysAbsent(w: World, s: Step, id: nat, data: string, reviewer: int)
    requires Enabled(w, s) && id !in w.decisions && Dispatch(data) == None
    requires s.Tap? && s.id == id ==> s == Tap(id, data, reviewer)
    ensures id !in Next(w, s).decisions
  {
  }

  /**
   In every reachable world, a pending appeal of an active ban can still be decided by tapping
   a button of its card if and only if that ban was never rejected and the button's data is
   dispatched. It does not matter which member of staff taps.
   */
  lemma {:induction false} PendingDecidableIff(w: World, steps: seq<Step>, ban: BanId, action: Action, reviewer: int)
    requires Schedule(w, steps)
    requires ban in Run(w, steps).bans && Run(w, steps).bans[ban].active && Run(w, steps).bans[ban].review.Some?
    ensures CanStillDecide(Run(w, steps), ban, action, reviewer) <==>
            Run(w, steps).bans[ban].rejectedAt.None? && Dispatch(ButtonData(action, ban)).Some?
  {
    var end := Run(w, steps);
    ApproveButtonWorksIff(ban);
    RejectButtonIsDead(ban);
    hide ButtonData, Dispatch, Next, Enabled;
    if end.bans[ban].rejectedAt.Some? {
      NoVerdictAfterRejection(end, [], ban, action, reviewer);
    } else if Dispatch(ButtonData(action, ban)).Some? {
      TapAfterLock(end, ban, action, reviewer);
    } else {
      forall id, more ensures !LeadsToVerdict(end, more, id, ban, action, reviewer) {
        if id !in end.decisions && Schedule(end, more) && TapsAreBy(more, id, ButtonData(action, ban), reviewer) {
          NeverBegins(end, more, id, ButtonData(action, ban), reviewer);
        }
      }
    }
  }

  /** So a pending appeal can be approved unless its ban was rejected before, and can never be rejected. */
  lemma {:induction false} ApprovableNeverRejectable(w: World, steps: seq<Step>, ban: BanId, reviewer: int)
    requires Schedule(w, steps) && SolidToEnd(ban)
    requires ban in Run(w, steps).bans && Run(w, steps).bans[ban].active && Run(w, steps).bans[ban].review.Some?
    ensures CanStillDecide(Run(w, steps), ban, Approve, reviewer) <==> Run(w, steps).bans[ban].rejectedAt.None?
    ensures !CanStillDecide(Run(w, steps), ban, Reject, reviewer)
  {
    PendingDecidableIff(w, steps, ban, Approve, reviewer);
    PendingDecidableIff(w, steps, ban, Reject, reviewer);
    ApproveButtonWorksIff(ban);
    RejectButtonIsDead(ban);
  }

  lemma {:induction false} Prepend(w: World, s: Step, rest: seq<Step>)
    requires Enabled(w, s) && Schedule(Next(w, s), rest)
    ensures Schedule(w, [s] + rest) && Run(w, [s] + rest) == Run(Next(w, s), rest)
  {
    assert ([s] + rest)[1..] == rest;
  }

  /** The ban of admin 7, rejected at 0, with one submission in the given phase a day later. */
  function DayLater(ban: BanId, phase: Submission, posted: set<nat>): World {
    var bans := map[ban := Ban(true, 7, None, Some(0.0))];
    World(REJECTION_COOLDOWN, bans, map[0 := (ban, phase)], map[], posted, {}, {}, {}, [], {})
  }

  function Pending(ban: BanId): World {
    var pending := Ban(true, 7, Some(Review(5, REJECTION_COOLDOWN)), Some(0.0));
    DayLater(ban, SubmissionOver, {5}).(bans := map[ban := pending], held := {5}, slotLog := [Claimed(ban, 5)])
  }

  ghost predicate Leads(w: World, s: Step, w': World) {
    Enabled(w, s) && Next(w, s) == w'
  }

  lemma {:induction false} DayLaterSteps(ban: BanId)
    ensures Leads(DayLater(ban, AtGate(Opening), {}), ReadGate(0, true), DayLater(ban, AtGate(Sending), {}))
    ensures Leads(DayLater(ban, AtGate(Sending), {}), ReadGate(0, true), DayLater(ban, Posting, {}))
    ensures Leads(DayLater(ban, Posting, {}), Post(0, 5, true, false), DayLater(ban, Claiming(5), {5}))
    ensures Leads(DayLater(ban, Claiming(5), {5}), Claim(0, true), Pending(ban))
  {
  }

  /** A second appeal, a day after the rejection, is accepted and pending, and nothing can decide it any more. */
  lemma {:induction false} PendingButUndecidable(ban: BanId, action: Action, reviewer: int)
    returns (w: World, steps: seq<Step>)
    ensures w.bans == map[ban := Ban(true, 7, None, Some(0.0))] && Fresh(w) && Schedule(w, steps)
    ensures Run(w, steps).bans == map[ban := Ban(true, 7, Some(Review(5, REJECTION_COOLDOWN)), Some(0.0))]
    ensures !CanStillDecide(Run(w, steps), ban, action, reviewer)
  {
    w := World(0.0, map[ban := Ban(true, 7, None, Some(0.0))], map[], map[], {}, {}, {}, {}, [], {});
    var waited := w.(now := REJECTION_COOLDOWN);
    assert Next(w, Wait(REJECTION_COOLDOWN)) == waited;
    assert Next(waited, Submit(0, ban)) == DayLater(ban, AtGate(Opening), {});
    DayLaterSteps(ban);
    assert Schedule(Pending(ban), []) && Run(Pending(ban), []) == Pending(ban);
    hide Schedule, Run, Next;
    steps := [];
    Prepend(DayLater(ban, Claiming(5), {5}), Claim(0, true), steps);
    steps := [Claim(0, true)] + steps;
    Prepend(DayLater(ban, Posting, {}), Post(0, 5, true, false), steps);
    steps := [Post(0, 5, true, false)] + steps;
    Prepend(DayLater(ban, AtGate(Sending), {}), ReadGate(0, true), steps);
    steps := [ReadGate(0, true)] + steps;
    Prepend(DayLater(ban, AtGate(Opening), {}), ReadGate(0, true), steps);
    steps := [ReadGate(0, true)] + steps;
    Prepend(waited, Submit(0, ban), steps);
    steps := [Submit(0, ban)] + steps;
    Prepend(w, Wait(REJECTION_COOLDOWN), steps);
    steps := [Wait(REJECTION_COOLDOWN)] + steps;
    PendingDecidableIff(w, steps, ban, action, reviewer);
  }
}
