/**
 Concurrent `add_warn` calls on one (user, chat) pair (tcbot/database/warns_db.py).

 A call is suspended at each database call, so its insert, its counter update and, when that
 fails, its rollback are separate atomic steps that interleave with those of other calls.
 */
module ConcurrentWarns {
  import opened Warns

  datatype Phase =
    | Ready
    | HasRow(id: nat)
    | Undoing(id: nat)
    | Returned(count: int)
    | Raised
    | Orphaned(id: nat)

  /** `id` is the row of a call that still has one in the history. */
  datatype World = World(db: Db, calls: seq<Phase>)

  datatype Step =
    | Insert(call: nat, id: nat, row: Row, ok: bool)
    | Count(call: nat, at: real, ok: bool)
    | Rollback(call: nat, ok: bool)

  ghost predicate Enabled(p: Pair, w: World, s: Step) {
    s.call < |w.calls| &&
    match s
    case Insert(i, id, row, _) => w.calls[i].Ready? && id !in w.db.rows && row.pair == p
    case Count(i, _, _) => w.calls[i].HasRow?
    case Rollback(i, _) => w.calls[i].Undoing?
  }

  function Next(p: Pair, w: World, s: Step): World
    requires s.call < |w.calls| && (s.Count? ==> w.calls[s.call].HasRow?) && (s.Rollback? ==> w.calls[s.call].Undoing?)
  {
    match s
    case Insert(i, id, row, ok) =>
      if ok then World(Inserted(w.db, id, row), w.calls[i := HasRow(id)])
      else World(w.db, w.calls[i := Raised])
    case Count(i, at, ok) =>
      if ok then World(Incremented(w.db, p, at), w.calls[i := Returned(CountOf(w.db, p) + 1)])
      else World(w.db, w.calls[i := Undoing(w.calls[i].id)])
    case Rollback(i, ok) =>
      if ok then World(RowDeleted(w.db, w.calls[i].id), w.calls[i := Raised])
      else World(w.db, w.calls[i := Orphaned(w.calls[i].id)])
  }

  ghost predicate Schedule(p: Pair, w: World, steps: seq<Step>)
    decreases |steps|
  {
    steps != [] ==> Enabled(p, w, steps[0]) && Schedule(p, Next(p, w, steps[0]), steps[1..])
  }

  ghost function Run(p: Pair, w: World, steps: seq<Step>): World
    requires Schedule(p, w, steps)
    decreases |steps|
  {
    if steps == [] then w else Run(p, Next(p, w, steps[0]), steps[1..])
  }

  function Start(db: Db, n: nat): World {
    World(db, seq(n, _ => Ready))
  }

  ghost function Successes(w: World): set<nat> {
    set i: nat | i < |w.calls| && w.calls[i].Returned?
  }

  ghost function Orphans(w: World): set<nat> {
    set i: nat | i < |w.calls| && w.calls[i].Orphaned?
  }

  /** Calls whose row is in the history. */
  ghost function Holders(w: World): set<nat> {
    set i: nat | i < |w.calls| && !w.calls[i].Ready? && !w.calls[i].Raised?
  }

  ghost predicate SomeCallReturned(w: World, k: int) {
    exists i :: i in Successes(w) && w.calls[i].count == k
  }

  /** Everything is relative to the state before the calls: `base` and `rows0`. */
  ghost predicate Counted(p: Pair, w: World, base: int) {
    && CountOf(w.db, p) == base + |Successes(w)|
    && (forall i :: i in Successes(w) ==> base < w.calls[i].count <= base + |Successes(w)|)
    && (forall i, j :: i in Successes(w) && j in Successes(w) && i != j ==> w.calls[i].count != w.calls[j].count)
    && (forall k :: base < k <= base + |Successes(w)| ==> SomeCallReturned(w, k))
  }

  /** A call between its insert and the end of its rollback. */
  ghost predicate Busy(w: World, i: nat) {
    i < |w.calls| && (w.calls[i].HasRow? || w.calls[i].Undoing?)
  }

  ghost predicate Held(p: Pair, w: World, rows0: nat) {
    && |RowsOf(w.db, p)| == rows0 + |Holders(w)|
    && (forall i: nat :: Busy(w, i) ==> w.calls[i].id in RowsOf(w.db, p))
    && (forall i: nat, j: nat :: Busy(w, i) && Busy(w, j) && i != j ==> w.calls[i].id != w.calls[j].id)
  }

  lemma {:induction false} SuccessKeepsCounted(p: Pair, w: World, s: Step, base: int)
    requires Counted(p, w, base) && Enabled(p, w, s) && s.Count? && s.ok
    ensures Counted(p, Next(p, w, s), base)
  {
    var w' := Next(p, w, s);
    assert Successes(w') == Successes(w) + {s.call};
    assert w'.calls[s.call].count == base + |Successes(w')|;
    forall k | base < k <= base + |Successes(w')| ensures SomeCallReturned(w', k) {
      if k == base + |Successes(w')| {
        assert s.call in Successes(w');
      } else {
        assert SomeCallReturned(w, k);
        var i :| i in Successes(w) && w.calls[i].count == k;
        assert i in Successes(w') && w'.calls[i].count == k;
      }
    }
  }

  lemma {:induction false} OtherStepsKeepCounted(p: Pair, w: World, s: Step, base: int)
    requires Counted(p, w, base) && Enabled(p, w, s) && !(s.Count? && s.ok)
    ensures Counted(p, Next(p, w, s), base)
  {
    var w' := Next(p, w, s);
    assert Successes(w') == Successes(w);
    assert forall i :: i in Successes(w) ==> w'.calls[i] == w.calls[i];
    forall k | base < k <= base + |Successes(w)| ensures SomeCallReturned(w', k) {
      assert SomeCallReturned(w, k);
      var i :| i in Successes(w) && w.calls[i].count == k;
      assert i in Successes(w') && w'.calls[i].count == k;
    }
  }

  lemma {:induction false} StepKeepsCounted(p: Pair, w: World, s: Step, base: int)
    requires Counted(p, w, base) && Enabled(p, w, s)
    ensures Counted(p, Next(p, w, s), base)
  {
    if s.Count? && s.ok {
      SuccessKeepsCounted(p, w, s, base);
    } else {
      OtherStepsKeepCounted(p, w, s, base);
    }
  }

  lemma {:induction false} InsertKeepsHeld(p: Pair, w: World, s: Step, rows0: nat)
    requires Held(p, w, rows0) && Enabled(p, w, s) && s.Insert?
    ensures Held(p, Next(p, w, s), rows0)
  {
    var w' := Next(p, w, s);
    assert forall i: nat :: i != s.call ==> (Busy(w', i) <==> Busy(w, i));
    if s.ok {
      assert RowsOf(w'.db, p) == RowsOf(w.db, p) + {s.id};
      assert Holders(w') == Holders(w) + {s.call};
    } else {
      assert Holders(w') == Holders(w);
    }
  }

  lemma {:induction false} CountKeepsHeld(p: Pair, w: World, s: Step, rows0: nat)
    requires Held(p, w, rows0) && Enabled(p, w, s) && s.Count?
    ensures Held(p, Next(p, w, s), rows0)
  {
    var w' := Next(p, w, s);
    assert forall i: nat :: i != s.call ==> (Busy(w', i) <==> Busy(w, i));
    assert Busy(w, s.call);
    assert RowsOf(w'.db, p) == RowsOf(w.db, p);
    assert Holders(w') == Holders(w);
  }

  lemma {:induction false} RollbackKeepsHeld(p: Pair, w: World, s: Step, rows0: nat)
    requires Held(p, w, rows0) && Enabled(p, w, s) && s.Rollback?
    ensures Held(p, Next(p, w, s), rows0)
  {
    var w' := Next(p, w, s);
    assert forall i: nat :: i != s.call ==> (Busy(w', i) <==> Busy(w, i));
    assert Busy(w, s.call);
    if s.ok {
      assert RowsOf(w'.db, p) == RowsOf(w.db, p) - {w.calls[s.call].id};
      assert Holders(w') == Holders(w) - {s.call};
    } else {
      assert Holders(w') == Holders(w);
    }
  }

  lemma {:induction false} StepKeepsHeld(p: Pair, w: World, s: Step, rows0: nat)
    requires Held(p, w, rows0) && Enabled(p, w, s)
    ensures Held(p, Next(p, w, s), rows0)
  {
    match s {
      case Insert(_, _, _, _) => InsertKeepsHeld(p, w, s, rows0);
      case Count(_, _, _) => CountKeepsHeld(p, w, s, rows0);
      case Rollback(_, _) => RollbackKeepsHeld(p, w, s, rows0);
    }
  }

  lemma {:induction false} ScheduleKeeps(p: Pair, w: World, steps: seq<Step>, base: int, rows0: nat)
    requires Counted(p, w, base) && Held(p, w, rows0) && Schedule(p, w, steps)
    ensures Counted(p, Run(p, w, steps), base) && Held(p, Run(p, w, steps), rows0)
    decreases |steps|
  {
    if steps != [] {
      StepKeepsCounted(p, w, steps[0], base);
      StepKeepsHeld(p, w, steps[0], rows0);
      ScheduleKeeps(p, Next(p, w, steps[0]), steps[1..], base, rows0);
    }
  }

  ghost predicate Quiescent(w: World) {
    forall i :: 0 <= i < |w.calls| ==> w.calls[i].Returned? || w.calls[i].Raised? || w.calls[i].Orphaned?
  }

  lemma {:induction false} NothingStarted(p: Pair, db: Db, n: nat)
    ensures Counted(p, Start(db, n), CountOf(db, p)) && Held(p, Start(db, n), |RowsOf(db, p)|)
  {
    assert Successes(Start(db, n)) == {} && Holders(Start(db, n)) == {};
  }

  lemma {:induction false} HoldersAtEnd(w: World)
    requires Quiescent(w)
    ensures |Holders(w)| == |Successes(w)| + |Orphans(w)|
  {
    assert Holders(w) == Successes(w) + Orphans(w);
    assert Successes(w) !! Orphans(w);
  }

  /**
   For any number of calls in any interleaving: the counts the successful ones return are
   c+1 to c+N, each exactly once, and once all calls are over the counter has grown by exactly
   N and the history by exactly N plus the rows whose rollback failed.
   */
  lemma {:induction false} ConcurrentAdds(p: Pair, db: Db, n: nat, steps: seq<Step>)
    requires Schedule(p, Start(db, n), steps) && Quiescent(Run(p, Start(db, n), steps))
    ensures var w, c := Run(p, Start(db, n), steps), CountOf(db, p);
      && CountOf(w.db, p) == c + |Successes(w)|
      && |RowsOf(w.db, p)| == |RowsOf(db, p)| + |Successes(w)| + |Orphans(w)|
      && (forall i :: i in Successes(w) ==> c < w.calls[i].count <= c + |Successes(w)|)
      && (forall k :: c < k <= c + |Successes(w)| ==> SomeCallReturned(w, k))
      && (forall i, j :: i in Successes(w) && j in Successes(w) && i != j ==> w.calls[i].count != w.calls[j].count)
  {
    NothingStarted(p, db, n);
    ScheduleKeeps(p, Start(db, n), steps, CountOf(db, p), |RowsOf(db, p)|);
    HoldersAtEnd(Run(p, Start(db, n), steps));
    hide Schedule, Run, Successes, Holders, Orphans, SomeCallReturned, Busy;
  }
}
