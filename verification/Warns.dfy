/**
 Model of tcbot/database/warns_db.py and of `expire_old_warns` in tcbot/database/scheduler.py:
 the warn history (`warns`) and the counters beside it (`warn_counts`).

 `utc_now()` readings are parameters. Every database call of a method either takes effect or
 fails without effect, as its flag says. Each method is proved against a function on the two
 collections; what the two promise each other is proved about those functions.
 */
module Warns {
  import opened Wrappers

  datatype Pair = Pair(user: int, chat: int)

  datatype Row = Row(pair: Pair, reason: string, adminId: int, timestamp: real)

  datatype Counter = Counter(count: int, updatedAt: real)

  /** Rows by `_id`, counters by the unique (user, chat) index. */
  datatype Db = Db(rows: map<nat, Row>, counts: map<Pair, Counter>)

  function RowsOf(db: Db, p: Pair): set<nat> {
    set id | id in db.rows && db.rows[id].pair == p
  }

  function RowsOfUser(db: Db, user: int): set<nat> {
    set id | id in db.rows && db.rows[id].pair.user == user
  }

  function CountOf(db: Db, p: Pair): int {
    if p in db.counts then db.counts[p].count else 0
  }

  // ---------------------------------------------------------------------------
  // Single database calls
  // ---------------------------------------------------------------------------

  function Inserted(db: Db, id: nat, row: Row): Db {
    db.(rows := db.rows[id := row])
  }

  function Incremented(db: Db, p: Pair, now: real): Db {
    db.(counts := db.counts[p := Counter(CountOf(db, p) + 1, now)])
  }

  function RowDeleted(db: Db, id: nat): Db {
    db.(rows := db.rows - {id})
  }

  /** `find_one_and_update` with the filter `count > 0`. */
  function Decremented(db: Db, p: Pair, now: real): Db {
    if CountOf(db, p) > 0 then db.(counts := db.counts[p := Counter(CountOf(db, p) - 1, now)]) else db
  }

  function CountStored(db: Db, p: Pair, count: int, now: real): Db {
    if count <= 0 then db.(counts := db.counts - {p}) else db.(counts := db.counts[p := Counter(count, now)])
  }

  function Recounted(db: Db, p: Pair, now: real): Db {
    CountStored(db, p, |RowsOf(db, p)|, now)
  }

  /** Reading a count, with the backfill of a missing counter. */
  function Synced(db: Db, p: Pair, now: real): Db {
    if p !in db.counts && |RowsOf(db, p)| > 0
    then db.(counts := db.counts[p := Counter(|RowsOf(db, p)|, now)])
    else db
  }

  function SyncedCount(db: Db, p: Pair): int {
    if p in db.counts then db.counts[p].count else |RowsOf(db, p)|
  }

  // ---------------------------------------------------------------------------
  // Whole operations
  // ---------------------------------------------------------------------------

  /** How an `add_warn` goes: stored, insert failed, counter failed and rolled back, or rollback failed too. */
  datatype AddFate = Stored | InsertFails | RolledBack | RollbackFails

  function Added(db: Db, id: nat, row: Row, countedAt: real, fate: AddFate): Db {
    match fate
    case Stored => Incremented(Inserted(db, id, row), row.pair, countedAt)
    case InsertFails => db
    case RolledBack => RowDeleted(Inserted(db, id, row), id)
    case RollbackFails => Inserted(db, id, row)
  }

  /** `sort=[("timestamp", -1), ("_id", -1)]`. */
  ghost predicate IsLast(db: Db, p: Pair, id: nat) {
    id in RowsOf(db, p) && forall other :: other in RowsOf(db, p) ==> NotAfter(db, other, id)
  }

  predicate NotAfter(db: Db, other: nat, id: nat)
    requires other in db.rows && id in db.rows
  {
    || db.rows[other].timestamp < db.rows[id].timestamp
    || (db.rows[other].timestamp == db.rows[id].timestamp && other <= id)
  }

  lemma {:induction false} SomeRowIsLast(db: Db, ids: set<nat>) returns (id: nat)
    requires ids != {} && forall i :: i in ids ==> i in db.rows
    ensures id in ids && forall other :: other in ids ==> NotAfter(db, other, id)
    decreases |ids|
  {
    var some :| some in ids;
    if ids == {some} {
      id := some;
    } else {
      var best := SomeRowIsLast(db, ids - {some});
      id := if NotAfter(db, some, best) then best else some;
      forall other | other in ids ensures NotAfter(db, other, id) {
        assert other != some ==> NotAfter(db, other, best);
      }
    }
  }

  /**
   Deleting row `id` and decrementing the counter, with the recount that repairs a partial failure
   unless it fails too.
   */
  function RemovedBy(db: Db, p: Pair, id: nat, now: real, deleteOk: bool, countOk: bool, recountOk: bool): Db {
    var rowGone := if deleteOk then RowDeleted(db, id) else db;
    var counted := if countOk then Decremented(rowGone, p, now) else rowGone;
    if (deleteOk && countOk && CountOf(db, p) > 0) || !recountOk then counted else Recounted(counted, p, now)
  }

  /** `clear_warns` hits one pair, `clear_all_warns` every pair of a user. */
  datatype Scope = OnePair(p: Pair) | AllOf(user: int)

  predicate Hit(scope: Scope, p: Pair) {
    match scope
    case OnePair(q) => p == q
    case AllOf(user) => p.user == user
  }

  function Cleared(db: Db, scope: Scope, rowsOk: bool, countsOk: bool): Db {
    Db(if rowsOk then map id | id in db.rows && !Hit(scope, db.rows[id].pair) :: db.rows[id] else db.rows,
       if countsOk then map p | p in db.counts && !Hit(scope, p) :: db.counts[p] else db.counts)
  }

  function Expired(db: Db, cutoff: real, rowsOk: bool, countsOk: bool): Db {
    Db(if rowsOk then map id | id in db.rows && db.rows[id].timestamp >= cutoff :: db.rows[id] else db.rows,
       if countsOk then map p | p in db.counts && db.counts[p].updatedAt >= cutoff :: db.counts[p] else db.counts)
  }

  function Moved(row: Row, oldChat: int, newChat: int): Row {
    if row.pair.chat == oldChat then row.(pair := Pair(row.pair.user, newChat)) else row
  }

  function MovedCounts(counts: map<Pair, Counter>, oldChat: int, newChat: int): map<Pair, Counter> {
    (map p | p in counts && p.chat != oldChat :: counts[p])
    + (map p | p in counts && p.chat == oldChat :: Pair(p.user, newChat) := counts[p])
  }

  /** `migrate_records`: every row and counter of one chat is repointed to another. */
  function Migrated(db: Db, oldChat: int, newChat: int, rowsOk: bool, countsOk: bool): Db {
    Db(if rowsOk then map id | id in db.rows :: Moved(db.rows[id], oldChat, newChat) else db.rows,
       if countsOk then MovedCounts(db.counts, oldChat, newChat) else db.counts)
  }

  class WarnsDb {
    var rows: map<nat, Row>
    var counts: map<Pair, Counter>
    var nextId: nat

    function View(): Db
      reads this
    {
      Db(rows, counts)
    }

    /** Identifiers are handed out in increasing order. */
    ghost predicate Valid()
      reads this
    {
      forall id :: id in rows ==> id < nextId
    }

    constructor ()
      ensures Valid() && View() == Db(map[], map[])
    {
      rows, counts, nextId := map[], map[], 0;
    }

    method AddWarn(user: int, reason: string, adminId: int, chat: int, insertedAt: real, countedAt: real, fate: AddFate)
      returns (r: Result<int, ()>)
      requires Valid()
      modifies this
      ensures Valid() && nextId == old(nextId) + 1
      ensures var row := Row(Pair(user, chat), reason, adminId, insertedAt);
        View() == Added(old(View()), old(nextId), row, countedAt, fate)
      ensures r == if fate.Stored? then Success(CountOf(View(), Pair(user, chat))) else Failure(())
    {
      var p, id := Pair(user, chat), nextId;
      nextId := nextId + 1;
      if fate.InsertFails? {
        return Failure(());
      }
      rows := rows[id := Row(p, reason, adminId, insertedAt)];
      if !fate.Stored? {
        if fate.RolledBack? {
          rows := rows - {id};
        }
        return Failure(());
      }
      var count := if p in counts then counts[p].count else 0;
      counts := counts[p := Counter(count + 1, countedAt)];
      r := Success(count + 1);
    }

    method CountRows(p: Pair) returns (n: nat)
      ensures n == |RowsOf(View(), p)|
    {
      var mine := set id | id in rows && rows[id].pair == p;
      assert mine == RowsOf(View(), p);
      n := |mine|;
    }

    method WarnCount(user: int, chat: int, now: real) returns (count: int)
      modifies this`counts
      ensures View() == Synced(old(View()), Pair(user, chat), now)
      ensures count == SyncedCount(old(View()), Pair(user, chat))
    {
      var p := Pair(user, chat);
      if p in counts {
        return counts[p].count;
      }
      count := CountRows(p);
      if count > 0 {
        counts := counts[p := Counter(count, now)];
      }
    }

    method RecountAndStore(p: Pair, now: real)
      modifies this`counts
      ensures View() == Recounted(old(View()), p, now)
    {
      var count := CountRows(p);
      if count <= 0 {
        counts := counts - {p};
      } else {
        counts := counts[p := Counter(count, now)];
      }
    }

    /** `find_one` with the newest row first. */
    method FindLast(p: Pair) returns (last: Option<nat>)
      ensures last.None? <==> RowsOf(View(), p) == {}
      ensures last.Some? ==> IsLast(View(), p, last.value)
      ensures last.Some? ==> forall other :: other in RowsOf(View(), p) ==>
                && rows[other].timestamp <= rows[last.value].timestamp
                && (rows[other].timestamp == rows[last.value].timestamp ==> other <= last.value)
    {
      var mine := set id | id in rows && rows[id].pair == p;
      assert mine == RowsOf(View(), p);
      if mine == {} {
        return None;
      }
      var db := View();
      ghost var newest := SomeRowIsLast(db, mine);
      var id :| id in mine && forall other :: other in mine ==> NotAfter(db, other, id);
      last := Some(id);
    }

    /** The filter `count > 0` decides whether the counter is decremented. */
    method Decrement(p: Pair, now: real) returns (updated: bool)
      modifies this`counts
      ensures View() == Decremented(old(View()), p, now) && updated == (CountOf(old(View()), p) > 0)
    {
      updated := p in counts && counts[p].count > 0;
      if updated {
        counts := counts[p := Counter(counts[p].count - 1, now)];
      }
    }

    /** Deletes the newest row of the pair and updates the counter beside it. */
    method RemoveLastWarn(user: int, chat: int, now: real, deleteOk: bool, countOk: bool, recountOk: bool)
      returns (r: Result<bool, ()>, ghost last: Option<nat>)
      requires Valid()
      modifies this
      ensures Valid()
      ensures last.None? <==> RowsOf(old(View()), Pair(user, chat)) == {}
      ensures last.Some? ==> IsLast(old(View()), Pair(user, chat), last.value)
      ensures last.Some? ==> forall other :: other in RowsOf(old(View()), Pair(user, chat)) ==>
                && old(rows)[other].timestamp <= old(rows)[last.value].timestamp
                && (old(rows)[other].timestamp == old(rows)[last.value].timestamp ==> other <= last.value)
      ensures r.Success? ==> r.value == (deleteOk && last.Some?)
      ensures r.Failure? <==>
              && last.Some? && !recountOk
              && !(deleteOk && countOk && CountOf(old(View()), Pair(user, chat)) > 0)
      ensures View() == if last.None? then old(View())
                        else RemovedBy(old(View()), Pair(user, chat), last.value, now, deleteOk, countOk, recountOk)
    {
      var p := Pair(user, chat);
      var found := FindLast(p);
      last := found;
      if found.None? {
        return Success(false), last;
      }
      if deleteOk {
        rows := rows - {found.value};
      }
      var updated := false;
      if countOk {
        updated := Decrement(p, now);
      }
      if !deleteOk || !updated {
        if !recountOk {
          return Failure(()), last;
        }
        RecountAndStore(p, now);
      }
      r := Success(deleteOk);
    }

    /** Both clear paths: all rows and counters that match, in parallel. */
    method ClearWarnDocs(scope: Scope, rowsOk: bool, countsOk: bool) returns (r: Result<nat, ()>)
      requires Valid()
      modifies this
      ensures Valid() && View() == Cleared(old(View()), scope, rowsOk, countsOk)
      ensures r == if !rowsOk then Failure(()) else
                match scope
                case OnePair(p) => Success(|RowsOf(old(View()), p)|)
                case AllOf(user) => Success(|RowsOfUser(old(View()), user)|)
    {
      var gone := set id | id in rows && Hit(scope, rows[id].pair);
      assert match scope
        case OnePair(p) => gone == RowsOf(View(), p)
        case AllOf(user) => gone == RowsOfUser(View(), user);
      if rowsOk {
        rows := map id | id in rows && !Hit(scope, rows[id].pair) :: rows[id];
      }
      if countsOk {
        counts := map p | p in counts && !Hit(scope, p) :: counts[p];
      }
      r := if rowsOk then Success(|gone|) else Failure(());
    }

    method ExpireOldWarns(cutoff: real, rowsOk: bool, countsOk: bool)
      requires Valid()
      modifies this
      ensures Valid() && View() == Expired(old(View()), cutoff, rowsOk, countsOk)
    {
      if countsOk {
        counts := map p | p in counts && counts[p].updatedAt >= cutoff :: counts[p];
      }
      if rowsOk {
        rows := map id | id in rows && rows[id].timestamp >= cutoff :: rows[id];
      }
    }

    /** Repoints the records of one chat; the answer is whether any was found. */
    method MigrateRecords(oldChat: int, newChat: int, rowsOk: bool, countsOk: bool) returns (matchedAny: bool)
      requires Valid()
      modifies this
      ensures Valid() && View() == Migrated(old(View()), oldChat, newChat, rowsOk, countsOk)
      ensures matchedAny <==>
              || (rowsOk && exists id :: id in old(rows) && old(rows)[id].pair.chat == oldChat)
              || (countsOk && exists p :: p in old(counts) && p.chat == oldChat)
    {
      matchedAny := false;
      if rowsOk {
        matchedAny := exists id | id in rows :: rows[id].pair.chat == oldChat;
        rows := map id | id in rows :: Moved(rows[id], oldChat, newChat);
      }
      if countsOk {
        matchedAny := matchedAny || exists p | p in counts :: p.chat == oldChat;
        counts := MovedCounts(counts, oldChat, newChat);
      }
    }
  }
}
