/** Sizes of finite sets of identifiers. */
module FiniteSets {
  lemma {:induction false} SubsetSize(a: set<nat>, b: set<nat>)
    requires a <= b
    ensures |a| <= |b|
  {
    assert b == a + (b - a);
  }

  lemma {:induction false} UnusedId(used: set<nat>) returns (id: nat)
    ensures forall other: nat :: other in used ==> other < id
    decreases |used|
  {
    id := 0;
    if some: nat :| some in used {
      var rest := UnusedId(used - {some});
      id := if rest <= some then some + 1 else rest;
      forall other: nat | other in used ensures other < id {
        assert other == some || other in used - {some};
      }
    }
  }
}
