/**
 What the warn history and its counters promise each other over whole runs
 (tcbot/database/warns_db.py; tcbot/database/scheduler.py, `expire_old_warns`).
 */
module WarnLedger {
  import opened FiniteSets
  import opened Warns

  // ---------------------------------------------------------------------------
  // Serial runs
  // ---------------------------------------------------------------------------

  /** One operation of a serial run, each at its own clock readings. */
  datatype Op =
    | Add(id: nat, row: Row, countedAt: real, fate: AddFate)
    | RemoveLast(p: Pair, id: nat, at: real, deleteOk: bool, countOk: bool, recountOk: bool)
    | Clear(scope: Scope, rowsOk: bool, countsOk: bool)
    | Expire(cutoff: real, rowsOk: bool, countsOk: bool)
    | ReadCount(p: Pair, at: real)

  function Do(db: Db, op: Op): Db {
    match op
    case Add(id, row, countedAt, fate) => Added(db, id, row, countedAt, fate)
    case RemoveLast(p, id, at, deleteOk, countOk, recountOk) => RemovedBy(db, p, id, at, deleteOk, countOk, recountOk)
    case Clear(scope, rowsOk, countsOk) => Cleared(db, scope, rowsOk, countsOk)
    case Expire(cutoff, rowsOk, countsOk) => Expired(db, cutoff, rowsOk, countsOk)
    case ReadCount(p, at) => Synced(db, p, at)
  }

  /** The clock reading an operation ends with. */
  function EndsAt(op: Op, now: real): real {
    match op
    case Add(_, _, countedAt, _) => countedAt
    case RemoveLast(_, _, at, _, _, _) => at
    case ReadCount(_, at) => at
    case _ => now
  }

  /** The clock never runs backwards, identifiers are new, and the row removed is the last one. */
  ghost predicate Allowed(db: Db, now: real, op: Op) {
    && EndsAt(op, now) >= now
    && (op.Add? ==> op.id !in db.rows && now <= op.row.timestamp <= op.countedAt)
    && (op.RemoveLast? ==> IsLast(db, op.p, op.id))
  }

  ghost predicate Serial(db: Db, now: real, ops: seq<Op>)
    decreases |ops|
  {
    ops != [] ==> Allowed(db, now, ops[0]) && Serial(Do(db, ops[0]), EndsAt(ops[0], now), ops[1..])
  }

  function DoAll(db: Db, ops: seq<Op>): Db
    decreases |ops|
  {
    if ops == [] then db else DoAll(Do(db, ops[0]), ops[1..])
  }

  /** A counter covers its pair's rows and is as young as all of them; without one there are none. */
  ghost predicate Balanced(db: Db, p: Pair) {
    if p in db.counts
    then |RowsOf(db, p)| <= db.counts[p].count && forall id :: id in RowsOf(db, p) ==>
        db.rows[id].timestamp <= db.counts[p].updatedAt
    else RowsOf(db, p) == {}
  }

  ghost predicate Ledger(db: Db, now: real) {
    && (forall p :: Balanced(db, p))
    && (forall id :: id in db.rows ==> db.rows[id].timestamp <= now)
  }

  lemma {:induction false} RowsAfterInsert(db: Db, id: nat, row: Row, p: Pair)
    requires id !in db.rows
    ensures RowsOf(Inserted(db, id, row), p) == if row.pair == p then RowsOf(db, p) + {id} else RowsOf(db, p)
    ensures id !in RowsOf(db, p)
  {
  }

  /** Whether the add leaves its row behind, and whether it counts it. */
  predicate LeavesRow(op: Op)
    requires op.Add?
  {
    op.fate.Stored? || op.fate.RollbackFails?
  }

  lemma {:induction false} SameRows(a: Db, b: Db, p: Pair)
    requires a.rows == b.rows
    ensures RowsOf(a, p) == RowsOf(b, p)
  {
  }

  lemma {:induction false} DocsAfterAdd(db: Db, op: Op)
    requires op.Add? && op.id !in db.rows
    ensures Do(db, op).rows == if LeavesRow(op) then db.rows[op.id := op.row] else db.rows
  {
  }

  lemma {:induction false} CountAfterAdd(db: Db, op: Op, p: Pair)
    requires op.Add?
    ensures CountOf(Do(db, op), p) == CountOf(db, p) + if op.fate.Stored? && op.row.pair == p then 1 else 0
  {
  }

  lemma {:induction false} RowsAfterAdd(db: Db, op: Op, p: Pair)
    requires op.Add? && op.id !in db.rows
    ensures RowsOf(Do(db, op), p) == if LeavesRow(op) && op.row.pair == p then RowsOf(db, p) + {op.id}
              else RowsOf(db, p)
    ensures |RowsOf(Do(db, op), p)| == |RowsOf(db, p)| + if LeavesRow(op) && op.row.pair == p then 1 else 0
    ensures CountOf(Do(db, op), p) == CountOf(db, p) + if op.fate.Stored? && op.row.pair == p then 1 else 0
  {
    hide Do, RowsOf, CountOf, LeavesRow;
    CountAfterAdd(db, op, p);
    DocsAfterAdd(db, op);
    RowsAfterInsert(db, op.id, op.row, p);
    SameRows(Do(db, op), if LeavesRow(op) then Inserted(db, op.id, op.row) else db, p);
  }

  /** The counter has room for one more row of that instant. */
  ghost predicate HasRoom(db: Db, row: Row) {
    row.pair in db.counts && |RowsOf(db, row.pair)| < db.counts[row.pair].count
        && row.timestamp <= db.counts[row.pair].updatedAt
  }

  /** No counter that matches belongs to a pair with rows. */
  ghost predicate NoneHit(db: Db, scope: Scope) {
    forall p :: p in db.counts && Hit(scope, p) ==> RowsOf(db, p) == {}
  }

  ghost predicate NoneOld(db: Db, cutoff: real) {
    forall p :: p in db.counts && db.counts[p].updatedAt < cutoff ==> RowsOf(db, p) == {}
  }

  /** What has to be spared for the ledger to hold after each operation. */
  ghost predicate Spared(db: Db, op: Op) {
    match op
    case Add(_, row, _, fate) => !fate.RollbackFails? || HasRoom(db, row)
    case RemoveLast(p, _, _, deleteOk, countOk, recountOk) =>
      deleteOk || !countOk || recountOk || |RowsOf(db, p)| < CountOf(db, p)
    case Clear(scope, rowsOk, countsOk) => rowsOk || !countsOk || NoneHit(db, scope)
    case Expire(cutoff, rowsOk, countsOk) => rowsOk || !countsOk || NoneOld(db, cutoff)
    case ReadCount(_, _) => true
  }

  /** An add breaks the ledger exactly when its rollback fails and its counter has no room for the row. */
  lemma {:induction false} AddKeepsLedger(db: Db, now: real, op: Op)
    requires Ledger(db, now) && op.Add? && Allowed(db, now, op)
    ensures Ledger(Do(db, op), op.countedAt) <==> !op.fate.RollbackFails? || HasRoom(db, op.row)
  {
    var db' := Do(db, op);
    assert Balanced(db, op.row.pair);
    RowsAfterAdd(db, op, op.row.pair);
    if op.fate.RollbackFails? && !HasRoom(db, op.row) {
      assert op.id in RowsOf(db', op.row.pair);
      assert !Balanced(db', op.row.pair);
    } else {
      forall p ensures Balanced(db', p) {
        AddBalances(db, now, op, p);
      }
    }
  }

  lemma {:induction false} AddBalances(db: Db, now: real, op: Op, p: Pair)
    requires Ledger(db, now) && op.Add? && Allowed(db, now, op)
    requires !op.fate.RollbackFails? || HasRoom(db, op.row)
    ensures Balanced(Do(db, op), p)
  {
    assert Balanced(db, p);
    RowsAfterAdd(db, op, p);
  }

  /**
   A removal keeps the ledger if and only if it does not lose the repair of a decrement whose
   row stayed, or the counter had one to spare.
   */
  lemma {:induction false} RemovalKeepsLedger(db: Db, now: real, op: Op)
    requires Ledger(db, now) && op.RemoveLast? && IsLast(db, op.p, op.id) && op.at >= now
    ensures Ledger(Do(db, op), op.at) <==>
            op.deleteOk || !op.countOk || op.recountOk || |RowsOf(db, op.p)| < CountOf(db, op.p)
  {
    var db' := Do(db, op);
    assert Balanced(db, op.p);
    assert RowsOf(db', op.p) == if op.deleteOk then RowsOf(db, op.p) - {op.id} else RowsOf(db, op.p);
    if op.deleteOk || !op.countOk || op.recountOk || |RowsOf(db, op.p)| < CountOf(db, op.p) {
      forall p ensures Balanced(db', p) {
        assert Balanced(db, p);
        if p != op.p {
          assert RowsOf(db', p) == RowsOf(db, p);
        }
      }
    } else {
      assert !Balanced(db', op.p);
    }
  }

  /** A clear breaks the ledger exactly when it drops the counter, and not the rows, of a pair that has some. */
  lemma {:induction false} ClearKeepsLedger(db: Db, now: real, scope: Scope, rowsOk: bool, countsOk: bool)
    requires Ledger(db, now)
    ensures Ledger(Cleared(db, scope, rowsOk, countsOk), now) <==> rowsOk || !countsOk || NoneHit(db, scope)
  {
    var db' := Cleared(db, scope, rowsOk, countsOk);
    forall p ensures RowsOf(db', p) == if rowsOk && Hit(scope, p) then {} else RowsOf(db, p) {
    }
    if rowsOk || !countsOk || NoneHit(db, scope) {
      forall p ensures Balanced(db', p) {
        assert Balanced(db, p);
      }
    } else {
      var p :| p in db.counts && Hit(scope, p) && RowsOf(db, p) != {};
      assert !Balanced(db', p);
    }
  }

  /**
   What a removal leaves from any state, ledger or not: the row is gone if its delete went
   through, and unless the repair is lost the counter is one lower when both updates took
   effect and the true number of rows otherwise; a counter is kept at zero by a decrement only.
   */
  lemma {:induction false} RemovalLeaves(db: Db, op: Op)
    requires op.RemoveLast? && op.id in RowsOf(db, op.p)
    ensures var db' := Do(db, op);
      && RowsOf(db', op.p) == (if op.deleteOk then RowsOf(db, op.p) - {op.id} else RowsOf(db, op.p))
      && (forall id :: id in db'.rows ==> id in db.rows && db'.rows[id] == db.rows[id])
      && (op.deleteOk && op.countOk && CountOf(db, op.p) > 0 ==>
            op.p in db'.counts && db'.counts[op.p] == Counter(CountOf(db, op.p) - 1, op.at))
      && (op.recountOk && !(op.deleteOk && op.countOk && CountOf(db, op.p) > 0) ==>
            && CountOf(db', op.p) == |RowsOf(db', op.p)|
            && (op.p in db'.counts <==> RowsOf(db', op.p) != {}))
      && forall q :: q != op.p ==> (q in db'.counts <==> q in db.counts)
                                   && (q in db.counts ==> db'.counts[q] == db.counts[q])
  {
    assert RowsOf(Do(db, op), op.p) == if op.deleteOk then RowsOf(db, op.p) - {op.id} else RowsOf(db, op.p);
  }

  ghost predicate NoneNegative(db: Db) {
    forall p :: p in db.counts ==> db.counts[p].count >= 0
  }

  /** No operation, whatever fails in it, makes a counter negative. */
  lemma {:induction false} CountersStayNonNegative(db: Db, op: Op)
    requires NoneNegative(db)
    ensures NoneNegative(Do(db, op))
  {
  }

  /** A read answers the counter, or the rows where there is none, and leaves a counter that says so. */
  lemma {:induction false} ReadIsStored(db: Db, p: Pair, now: real)
    ensures var db' := Do(db, ReadCount(p, now));
      && db'.rows == db.rows
      && SyncedCount(db, p) == (if p in db.counts then CountOf(db, p) else |RowsOf(db, p)|)
      && (p in db'.counts <==> p in db.counts || RowsOf(db, p) != {})
      && (p in db.counts ==> db' == db)
      && (p !in db.counts && RowsOf(db, p) != {} ==>
            db' == db.(counts := db.counts[p := Counter(|RowsOf(db, p)|, now)]))
  {
  }

  /** Clearing one pair empties that pair and leaves every other pair's rows and counter as they were. */
  lemma {:induction false} OnlyThatPairCleared(db: Db, p: Pair, rowsOk: bool, countsOk: bool, q: Pair)
    ensures var db' := Cleared(db, OnePair(p), rowsOk, countsOk);
      && RowsOf(db', q) == (if rowsOk && q == p then {} else RowsOf(db, q))
      && (forall id :: id in RowsOf(db', q) ==> db'.rows[id] == db.rows[id])
      && (q in db'.counts <==> q in db.counts && !(countsOk && q == p))
      && (q in db'.counts ==> db'.counts[q] == db.counts[q])
  {
    var db' := Cleared(db, OnePair(p), rowsOk, countsOk);
    assert forall id :: id in RowsOf(db', q) <==> id in RowsOf(db, q) && !(rowsOk && q == p);
  }

  /** Clearing a user empties all pairs of that user and no one else's. */
  lemma {:induction false} OnlyThatUserCleared(db: Db, user: int, rowsOk: bool, countsOk: bool, q: Pair)
    ensures var db' := Cleared(db, AllOf(user), rowsOk, countsOk);
      && RowsOf(db', q) == (if rowsOk && q.user == user then {} else RowsOf(db, q))
      && (forall id :: id in RowsOf(db', q) ==> db'.rows[id] == db.rows[id])
      && (q in db'.counts <==> q in db.counts && !(countsOk && q.user == user))
      && (q in db'.counts ==> db'.counts[q] == db.counts[q])
  {
    var db' := Cleared(db, AllOf(user), rowsOk, countsOk);
    assert forall id :: id in RowsOf(db', q) <==> id in RowsOf(db, q) && !(rowsOk && q.user == user);
  }

  /** Expiry breaks the ledger exactly when it drops an old counter, and not the rows, of a pair that has some. */
  lemma {:induction false} ExpiryKeepsLedger(db: Db, now: real, cutoff: real, rowsOk: bool, countsOk: bool)
    requires Ledger(db, now)
    ensures Ledger(Expired(db, cutoff, rowsOk, countsOk), now) <==> rowsOk || !countsOk || NoneOld(db, cutoff)
  {
    var db' := Expired(db, cutoff, rowsOk, countsOk);
    if rowsOk || !countsOk || NoneOld(db, cutoff) {
      forall p ensures Balanced(db', p) {
        assert Balanced(db, p);
        SubsetSize(RowsOf(db', p), RowsOf(db, p));
      }
    } else {
      var p :| p in db.counts && db.counts[p].updatedAt < cutoff && RowsOf(db, p) != {};
      assert RowsOf(db', p) == RowsOf(db, p);
      assert !Balanced(db', p);
    }
  }

  /** Each operation keeps the ledger if and only if what it needs is spared. */
  lemma {:induction false} StepKeepsLedger(db: Db, now: real, op: Op)
    requires Ledger(db, now) && Allowed(db, now, op)
    ensures Ledger(Do(db, op), EndsAt(op, now)) <==> Spared(db, op)
  {
    match op {
      case Add(_, _, _, _) => AddKeepsLedger(db, now, op);
      case RemoveLast(_, _, _, _, _, _) => RemovalKeepsLedger(db, now, op);
      case Clear(scope, rowsOk, countsOk) => ClearKeepsLedger(db, now, scope, rowsOk, countsOk);
      case Expire(cutoff, rowsOk, countsOk) => ExpiryKeepsLedger(db, now, cutoff, rowsOk, countsOk);
      case ReadCount(p, _) => assert Balanced(db, p);
    }
  }

  ghost predicate AllSpared(db: Db, ops: seq<Op>)
    decreases |ops|
  {
    ops != [] ==> Spared(db, ops[0]) && AllSpared(Do(db, ops[0]), ops[1..])
  }

  ghost predicate AlwaysLedger(db: Db, now: real, ops: seq<Op>)
    decreases |ops|
  {
    Ledger(db, now) && (ops != [] ==> AlwaysLedger(Do(db, ops[0]), EndsAt(ops[0], now), ops[1..]))
  }

  /** A serial run keeps the ledger throughout if and only if each of its operations is spared. */
  lemma {:induction false} RunKeepsLedger(db: Db, now: real, ops: seq<Op>)
    requires Ledger(db, now) && Serial(db, now, ops)
    ensures AlwaysLedger(db, now, ops) <==> AllSpared(db, ops)
    decreases |ops|
  {
    if ops != [] {
      var db', now' := Do(db, ops[0]), EndsAt(ops[0], now);
      StepKeepsLedger(db, now, ops[0]);
      hide Ledger, Do, Spared;
      if Ledger(db', now') {
        RunKeepsLedger(db', now', ops[1..]);
      } else {
        assert !AlwaysLedger(db', now', ops[1..]);
      }
    }
  }

  /**
   A pair whose counter is gone, for instance expired, has no rows left, so nothing but a new
   row brings a counter back: no read backfills it, over any later run, whatever fails in it.
   */
  lemma {:induction false} NeverRebuilt(db: Db, now: real, ops: seq<Op>, p: Pair)
    requires Ledger(db, now) && Serial(db, now, ops) && p !in db.counts
    requires forall i :: 0 <= i < |ops| && ops[i].Add? && LeavesRow(ops[i]) ==> ops[i].row.pair != p
    ensures var end := DoAll(db, ops);
      p !in end.counts && RowsOf(end, p) == {} && SyncedCount(end, p) == 0
  {
    assert Balanced(db, p);
    StaysGone(db, now, ops, p);
  }

  lemma {:induction false} StaysGone(db: Db, now: real, ops: seq<Op>, p: Pair)
    requires Serial(db, now, ops) && p !in db.counts && RowsOf(db, p) == {}
    requires forall i :: 0 <= i < |ops| && ops[i].Add? && LeavesRow(ops[i]) ==> ops[i].row.pair != p
    ensures p !in DoAll(db, ops).counts && RowsOf(DoAll(db, ops), p) == {}
    decreases |ops|
  {
    if ops != [] {
      StaysMissing(db, now, ops[0], p);
      StaysGone(Do(db, ops[0]), EndsAt(ops[0], now), ops[1..], p);
    }
  }

  lemma {:induction false} StaysMissing(db: Db, now: real, op: Op, p: Pair)
    requires Allowed(db, now, op) && p !in db.counts && RowsOf(db, p) == {}
    requires op.Add? && LeavesRow(op) ==> op.row.pair != p
    ensures p !in Do(db, op).counts && RowsOf(Do(db, op), p) == {}
  {
    match op {
      case Add(_, _, _, _) => RowsAfterAdd(db, op, p);
      case RemoveLast(q, id, _, _, _, _) =>
        assert id in RowsOf(db, q) && q != p;
        assert RowsOf(Do(db, op), p) <= RowsOf(db, p);
      case _ => assert RowsOf(Do(db, op), p) <= RowsOf(db, p);
    }
  }

  /** A failed rollback leaves a row without a counter, and the next read counts the warn that failed. */
  lemma {:induction false} FailedRollbackExample()
    ensures var p, empty := Pair(1, 1), Db(map[], map[]);
      var add := Add(0, Row(p, "", 1, 0.0), 0.0, RollbackFails);
      && Ledger(empty, 0.0) && Allowed(empty, 0.0, add) && !Ledger(Do(empty, add), 0.0)
      && CountOf(empty, p) == 0 && SyncedCount(Do(empty, add), p) == 1
  {
    var p, empty := Pair(1, 1), Db(map[], map[]);
    var add := Add(0, Row(p, "", 1, 0.0), 0.0, RollbackFails);
    assert forall q :: RowsOf(empty, q) == {};
    AddKeepsLedger(empty, 0.0, add);
    assert RowsOf(Do(empty, add), p) == {0};
  }

  /** A clear that loses the counter but not the row is undone by the next read. */
  lemma {:induction false} CountsOnlyClearExample()
    ensures var p := Pair(1, 1);
      var db := Db(map[0 := Row(p, "", 1, 0.0)], map[p := Counter(1, 0.0)]);
      var clear := Clear(OnePair(p), false, true);
      Ledger(db, 0.0) && !Ledger(Do(db, clear), 0.0) && SyncedCount(Do(db, clear), p) == 1
  {
    var p := Pair(1, 1);
    var db := Db(map[0 := Row(p, "", 1, 0.0)], map[p := Counter(1, 0.0)]);
    assert forall q :: RowsOf(db, q) == if q == p then {0} else {};
    ClearKeepsLedger(db, 0.0, OnePair(p), false, true);
    assert RowsOf(Do(db, Clear(OnePair(p), false, true)), p) == {0};
  }

  // ---------------------------------------------------------------------------
  // When the counter equals the rows
  // ---------------------------------------------------------------------------

  ghost predicate Exact(db: Db, p: Pair) {
    CountOf(db, p) == |RowsOf(db, p)|
  }

  /** A removal keeps an exact counter exact if and only if both of its updates went alike or the repair ran. */
  lemma {:induction false} RemovalExactness(db: Db, now: real, op: Op)
    requires Ledger(db, now) && op.RemoveLast? && IsLast(db, op.p, op.id) && Exact(db, op.p)
    ensures Exact(Do(db, op), op.p) <==> op.deleteOk == op.countOk || op.recountOk
  {
    var db' := Do(db, op);
    assert RowsOf(db', op.p) == if op.deleteOk then RowsOf(db, op.p) - {op.id} else RowsOf(db, op.p);
    assert CountOf(db, op.p) > 0;
  }

  /** When an operation other than expiry treats the pair's rows and counter alike. */
  ghost predicate Whole(db: Db, op: Op, p: Pair)
    requires !op.Expire?
  {
    match op
    case Add(_, row, _, fate) => row.pair != p || !fate.RollbackFails?
    case RemoveLast(q, _, _, deleteOk, countOk, recountOk) => q != p || deleteOk == countOk || recountOk
    case Clear(scope, rowsOk, countsOk) => !Hit(scope, p) || rowsOk == countsOk || RowsOf(db, p) == {}
    case ReadCount(_, _) => true
  }

  /** Every operation but expiry keeps an exact counter exact if and only if it treats rows and counter alike. */
  lemma {:induction false} OthersStayExact(db: Db, now: real, op: Op, p: Pair)
    requires Ledger(db, now) && Allowed(db, now, op) && !op.Expire? && Exact(db, p)
    ensures Exact(Do(db, op), p) <==> Whole(db, op, p)
  {
    match op {
      case Add(_, _, _, _) => RowsAfterAdd(db, op, p);
      case RemoveLast(_, _, _, _, _, _) =>
        if op.p == p {
          RemovalExactness(db, now, op);
        } else {
          assert RowsOf(Do(db, op), p) == RowsOf(db, p);
        }
      case Clear(scope, rowsOk, _) => assert RowsOf(Do(db, op), p) == if rowsOk && Hit(scope, p) then {}
          else RowsOf(db, p);
      case ReadCount(_, _) => assert RowsOf(Do(db, op), p) == RowsOf(db, p);
    }
  }

  lemma {:induction false} RowsLost(db: Db, cutoff: real, countsOk: bool, p: Pair)
    ensures var db' := Expired(db, cutoff, true, countsOk);
      && |RowsOf(db', p)| <= |RowsOf(db, p)|
      && (|RowsOf(db', p)| == |RowsOf(db, p)| <==> forall id :: id in RowsOf(db, p) ==> db.rows[id].timestamp >= cutoff)
  {
    var kept := RowsOf(Expired(db, cutoff, true, countsOk), p);
    var lost := RowsOf(db, p) - kept;
    assert RowsOf(db, p) == kept + lost;
    assert forall id :: id in lost <==> id in RowsOf(db, p) && db.rows[id].timestamp < cutoff;
  }

  /**
   Expiry deletes old rows but never lowers a surviving counter. It keeps an exact counter
   exact if and only if the counter goes and its rows with it, or the counter stays and every
   row of its pair as well.
   */
  lemma {:induction false} ExpiryExactness(db: Db, now: real, cutoff: real, rowsOk: bool, countsOk: bool, p: Pair)
    requires Ledger(db, now) && Exact(db, p)
    ensures Exact(Expired(db, cutoff, rowsOk, countsOk), p) <==>
            if countsOk && p in db.counts && db.counts[p].updatedAt < cutoff
            then rowsOk || RowsOf(db, p) == {}
            else !rowsOk || forall id :: id in RowsOf(db, p) ==> db.rows[id].timestamp >= cutoff
  {
    var db' := Expired(db, cutoff, rowsOk, countsOk);
    assert Balanced(db, p);
    if rowsOk {
      RowsLost(db, cutoff, countsOk, p);
      if countsOk && p in db.counts && db.counts[p].updatedAt < cutoff {
        assert RowsOf(db', p) == {};
      }
    } else {
      assert RowsOf(db', p) == RowsOf(db, p);
    }
  }

  /** Warned at 0 and at 10, expired up to 5: one row left, and a counter that still says 2. */
  lemma {:induction false} ExpiryLeavesStaleCount()
    ensures var p := Pair(1, 1);
      var ops := [Add(0, Row(p, "", 1, 0.0), 0.0, Stored), Add(1, Row(p, "", 1, 10.0), 10.0, Stored),
          Expire(5.0, true, true)];
      var db := Db(map[], map[]);
      && Serial(db, 0.0, ops)
      && |RowsOf(DoAll(db, ops), p)| == 1 && SyncedCount(DoAll(db, ops), p) == 2
  {
    var p := Pair(1, 1);
    var a, b, e := Add(0, Row(p, "", 1, 0.0), 0.0, Stored), Add(1, Row(p, "", 1, 10.0), 10.0, Stored),
        Expire(5.0, true, true);
    var ops := [a, b, e];
    var db := Db(map[], map[]);
    assert ops[1..] == [b, e] && [b, e][1..] == [e] && [e][1..] == [];
    var end := Do(Do(Do(db, a), b), e);
    assert Serial(Do(Do(db, a), b), 10.0, [e]);
    assert Serial(Do(db, a), 0.0, [b, e]);
    assert DoAll(Do(Do(db, a), b), [e]) == end;
    assert DoAll(Do(db, a), [b, e]) == end;
    assert RowsOf(end, p) == {1};
  }

  ghost predicate NoRecords(db: Db, chat: int) {
    forall p: Pair :: p.chat == chat ==> p !in db.counts && RowsOf(db, p) == {}
  }

  ghost predicate NoRows(db: Db, chat: int) {
    forall p: Pair :: p.chat == chat ==> RowsOf(db, p) == {}
  }

  /** Moving to a chat without records carries every pair over whole and loses nothing. */
  lemma {:induction false} MigrationCarriesOver(db: Db, now: real, oldChat: int, newChat: int, user: int)
    requires Ledger(db, now) && oldChat != newChat && NoRecords(db, newChat)
    ensures var db' := Migrated(db, oldChat, newChat, true, true);
      && Ledger(db', now)
      && RowsOf(db', Pair(user, newChat)) == RowsOf(db, Pair(user, oldChat))
      && CountOf(db', Pair(user, newChat)) == CountOf(db, Pair(user, oldChat))
      && RowsOf(db', Pair(user, oldChat)) == {} && CountOf(db', Pair(user, oldChat)) == 0
  {
    MigrationKeepsLedger(db, now, oldChat, newChat, true, true);
    RowsAfterMigration(db, oldChat, newChat, true, true, Pair(user, newChat));
    RowsAfterMigration(db, oldChat, newChat, true, true, Pair(user, oldChat));
  }

  /** With one of its two updates failing, migration breaks the ledger exactly when the old chat has rows. */
  lemma {:induction false} MigrationKeepsLedger(db: Db, now: real, oldChat: int, newChat: int,
                                                rowsOk: bool, countsOk: bool)
    requires Ledger(db, now) && oldChat != newChat && NoRecords(db, newChat)
    ensures Ledger(Migrated(db, oldChat, newChat, rowsOk, countsOk), now) <==> rowsOk == countsOk || NoRows(db, oldChat)
  {
    var db' := Migrated(db, oldChat, newChat, rowsOk, countsOk);
    if rowsOk == countsOk || NoRows(db, oldChat) {
      forall p ensures Balanced(db', p) {
        MigrationBalances(db, now, oldChat, newChat, rowsOk, countsOk, p);
      }
    } else {
      var p: Pair :| p.chat == oldChat && RowsOf(db, p) != {};
      var lone := if rowsOk then Pair(p.user, newChat) else p;
      RowsAfterMigration(db, oldChat, newChat, rowsOk, countsOk, lone);
      assert !Balanced(db', lone);
    }
  }

  lemma {:induction false} MigrationBalances(db: Db, now: real, oldChat: int, newChat: int,
                                             rowsOk: bool, countsOk: bool, p: Pair)
    requires Ledger(db, now) && oldChat != newChat && NoRecords(db, newChat)
    requires rowsOk == countsOk || NoRows(db, oldChat)
    ensures Balanced(Migrated(db, oldChat, newChat, rowsOk, countsOk), p)
  {
    RowsAfterMigration(db, oldChat, newChat, rowsOk, countsOk, p);
    assert Balanced(db, p) && Balanced(db, Pair(p.user, oldChat));
  }

  lemma {:induction false} RowsAfterMigration(db: Db, oldChat: int, newChat: int, rowsOk: bool, countsOk: bool, p: Pair)
    requires oldChat != newChat && NoRecords(db, newChat)
    ensures RowsOf(Migrated(db, oldChat, newChat, rowsOk, countsOk), p) ==
            if !rowsOk then RowsOf(db, p)
            else if p.chat == newChat then RowsOf(db, Pair(p.user, oldChat))
            else if p.chat == oldChat then {}
            else RowsOf(db, p)
  {
    forall id | id in db.rows && p.chat == newChat ensures db.rows[id].pair != p {
      assert id !in RowsOf(db, p);
    }
  }
}
