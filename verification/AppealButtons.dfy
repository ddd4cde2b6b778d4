/**
 The buttons of a review card (tcbot/modules/helper/keyboards.py, `appeal_review_kb`) and the
 way their data is dispatched: the handler's pattern in tcbot/modules/appeals.py and the
 reading of action and ban id in appeal_review_flow.py, `on_decision`.
 */
module AppealButtons {
  import opened Wrappers

  datatype Action = Approve | Reject

  const APPROVE_PREFIX := "appeal_approve_"
  const REJECT_PREFIX := "appeal_reject_"

  /** What the card's button sends. */
  function ButtonData(action: Action, banId: string): string {
    match action
    case Approve => "appeal_approve_" + banId
    case Reject => "appeal_reject:" + banId
  }

  predicate HasPrefix(s: string, prefix: string) {
    |prefix| <= |s| && s[..|prefix|] == prefix
  }

  /** Python's `\s` on text. */
  predicate Whitespace(c: char) {
    var n := c as int;
    || 9 <= n <= 13 || 28 <= n <= 32 || n == 0x85 || n == 0xA0 || n == 0x1680 || 0x2000 <= n <= 0x200A
    || n == 0x2028 || n == 0x2029 || n == 0x202F || n == 0x205F || n == 0x3000
  }

  function WithoutFinalBreak(s: string): string {
    if s != "" && s[|s| - 1] == '\n' then s[..|s| - 1] else s
  }

  predicate Solid(s: string) {
    s != "" && forall i :: 0 <= i < |s| ==> !Whitespace(s[i])
  }

  /** `\S+$`, which also matches before a final line break. */
  predicate SolidToEnd(rest: string) {
    Solid(WithoutFinalBreak(rest))
  }

  /** What a callback query with this data is taken for; None when no handler takes it. */
  function Dispatch(data: string): Option<(Action, string)> {
    if HasPrefix(data, APPROVE_PREFIX) && SolidToEnd(data[|APPROVE_PREFIX|..])
    then Some((Approve, data[|APPROVE_PREFIX|..]))
    else if HasPrefix(data, REJECT_PREFIX) && SolidToEnd(data[|REJECT_PREFIX|..])
    then Some((Reject, data[|REJECT_PREFIX|..]))
    else None
  }

  lemma {:induction false} DiffersAt(s: string, prefix: string, k: nat)
    requires k < |s| && k < |prefix| && s[k] != prefix[k]
    ensures !HasPrefix(s, prefix)
  {
  }

  /** The card's reject button is never dispatched, whatever the ban. */
  lemma {:induction false} RejectButtonIsDead(banId: string)
    ensures Dispatch(ButtonData(Reject, banId)) == None
  {
    var data := ButtonData(Reject, banId);
    assert data[13] == ':' && REJECT_PREFIX[13] == '_';
    assert data[7] == 'r' && APPROVE_PREFIX[7] == 'a';
    DiffersAt(data, REJECT_PREFIX, 13);
    DiffersAt(data, APPROVE_PREFIX, 7);
  }

  /** The approve button is dispatched, for its own ban, exactly when the ban's id is solid. */
  lemma {:induction false} ApproveButtonWorksIff(banId: string)
    ensures Dispatch(ButtonData(Approve, banId)) == if SolidToEnd(banId) then Some((Approve, banId)) else None
  {
    var data := ButtonData(Approve, banId);
    assert data[..|APPROVE_PREFIX|] == APPROVE_PREFIX && data[|APPROVE_PREFIX|..] == banId;
    assert data[7] == 'a' && REJECT_PREFIX[7] == 'r';
    DiffersAt(data, REJECT_PREFIX, 7);
  }

  /** So it works for every non-empty id of visible ASCII characters; ban ids are lower-case letters and digits. */
  lemma {:induction false} ApproveButtonWorks(banId: string)
    requires banId != "" && forall i :: 0 <= i < |banId| ==> 33 <= banId[i] as int <= 126
    ensures Dispatch(ButtonData(Approve, banId)) == Some((Approve, banId))
  {
    forall i | 0 <= i < |banId| ensures !Whitespace(banId[i]) && banId[i] != '\n' {
      assert 33 <= banId[i] as int <= 126;
    }
    ApproveButtonWorksIff(banId);
  }

  /** It does not for an empty id or one with a blank, a final line break aside. */
  lemma {:induction false} SpacedIdNotDispatched(banId: string, i: nat)
    requires banId == "" || (i < |banId| && banId[i] as int in {9, 11, 12, 13, 28, 29, 30, 31, 32, 160})
             || (i + 1 < |banId| && banId[i] as int == 10)
    ensures Dispatch(ButtonData(Approve, banId)) == None
  {
    ApproveButtonWorksIff(banId);
    if banId != "" {
      assert WithoutFinalBreak(banId)[i] == banId[i] && Whitespace(banId[i]);
    }
  }

  /** The reject button is one character away from data that the handler takes. */
  lemma {:induction false} RejectButtonOneCharacterOff(banId: string)
    ensures ButtonData(Reject, banId)[13 := '_'] == "appeal_reject_" + banId
    ensures Dispatch("appeal_reject_" + banId) == if SolidToEnd(banId) then Some((Reject, banId)) else None
  {
    var data := "appeal_reject_" + banId;
    assert data[..|REJECT_PREFIX|] == REJECT_PREFIX && data[|REJECT_PREFIX|..] == banId;
    assert data[7] == 'r' && APPROVE_PREFIX[7] == 'a';
    DiffersAt(data, APPROVE_PREFIX, 7);
  }

  /** A rejection is dispatched only for data that no button of the card carries. */
  lemma {:induction false} RejectionNeedsOtherData(data: string, action: Action, banId: string)
    requires Dispatch(data).Some? && Dispatch(data).value.0 == Reject
    ensures data != ButtonData(action, banId)
  {
    RejectButtonIsDead(banId);
    ApproveButtonWorksIff(banId);
  }
}
