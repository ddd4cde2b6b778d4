/**
 The ordered Redis mutations of tcbot/database/cache.py for one prefix and one event loop.

 `put`, `invalidate` and `clear_all` change the in-memory layer at once and enqueue a task
 that first awaits the task it found as the tail, then runs its mutation. When a task is over
 a done-callback runs later and clears the tail if it still is that task. Tasks suspend at
 every Redis call, so enqueuing, beginning, each batch of a clear, ending and the callback are
 separate atomic steps. So are the two halves of a Redis hit in `get_or_fetch`: Redis answers,
 and later the answer is copied into memory; a miss ends in a fetch and an ordinary `put`.
 No task is cancelled, and no one else writes under the prefix.
 */
module RedisChain {
  import opened Wrappers

  type Key = string
  type Payload = string
  type Store = map<Key, Payload>

  datatype Op = Set(key: Key, value: Payload) | Delete(key: Key) | ClearAll

  /** A running clear has `todo` keys that its SCAN has still to return. */
  datatype Status = Queued | Running(todo: set<Key>) | Finished(ok: bool) | Retired(ok: bool)

  /** `removed` collects what a clear has unlinked. */
  datatype Task = Task(op: Op, previous: Option<nat>, status: Status, removed: set<Key>)

  /** A `get_or_fetch` that missed in memory and awaits what Redis has just answered. */
  datatype Hit = Hit(key: Key, value: Payload)

  /** `leftover` is what Redis held when the run began, from another process or an earlier run. */
  datatype Cache = Cache(
    leftover: Store,
    memory: Store,
    redis: Store,
    tasks: seq<Task>,
    tail: Option<nat>,
    hits: map<nat, Hit>)

  function Start(leftover: Store): Cache {
    Cache(leftover, map[], leftover, [], None, map[])
  }

  datatype Step =
    | Enqueue(op: Op)
    | Evict(keys: set<Key>)
    | Begin(i: nat)
    | Unlink(i: nat, keys: set<Key>)
    | End(i: nat, ok: bool)
    | Retire(i: nat)
    | ReadRedis(id: nat, key: Key)
    | Fill(id: nat)

  predicate Over(t: Task) {
    t.status.Finished? || t.status.Retired?
  }

  predicate Enabled(c: Cache, s: Step) {
    match s
    case Enqueue(_) => true
    case Evict(_) => true
    case Begin(i) =>
      && i < |c.tasks| && c.tasks[i].status.Queued?
      && (c.tasks[i].previous.Some? ==>
          c.tasks[i].previous.value < |c.tasks| && Over(c.tasks[c.tasks[i].previous.value]))
    case Unlink(i, _) => i < |c.tasks| && c.tasks[i].status.Running? && c.tasks[i].op.ClearAll?
    case End(i, ok) =>
      && i < |c.tasks| && c.tasks[i].status.Running?
      && (c.tasks[i].op.ClearAll? && ok ==> c.tasks[i].status.todo == {})
    case Retire(i) => i < |c.tasks| && c.tasks[i].status.Finished?
    case ReadRedis(id, key) => id !in c.hits && key !in c.memory
    case Fill(id) => id in c.hits
  }

  function Applied(m: Store, op: Op): Store {
    match op
    case Set(key, value) => m[key := value]
    case Delete(key) => m - {key}
    case ClearAll => map[]
  }

  function Next(c: Cache, s: Step): Cache
    requires Enabled(c, s)
  {
    match s
    case Enqueue(op) =>
      c.(memory := Applied(c.memory, op),
         tasks := c.tasks + [Task(op, c.tail, Queued, {})],
         tail := Some(|c.tasks|))
    case Evict(keys) => c.(memory := c.memory - keys)
    case Begin(i) =>
      c.(tasks := c.tasks[i := c.tasks[i].(status := Running(if c.tasks[i].op.ClearAll? then c.redis.Keys else {}))])
    case Unlink(i, keys) =>
      var t := c.tasks[i];
      c.(redis := c.redis - keys,
         tasks := c.tasks[i := t.(status := Running(t.status.todo - keys), removed := t.removed + keys)])
    case End(i, ok) =>
      var t := c.tasks[i];
      c.(redis := if ok && !t.op.ClearAll? then Applied(c.redis, t.op) else c.redis,
         tasks := c.tasks[i := t.(status := Finished(ok))])
    case Retire(i) =>
      c.(tasks := c.tasks[i := c.tasks[i].(status := Retired(c.tasks[i].status.ok))],
         tail := if c.tail == Some(i) then None else c.tail)
    case ReadRedis(id, key) => if key in c.redis then c.(hits := c.hits[id := Hit(key, c.redis[key])]) else c
    case Fill(id) => c.(memory := c.memory[c.hits[id].key := c.hits[id].value], hits := c.hits - {id})
  }

  /** The fields the cache and its done-callbacks update; each method is one of the steps above. */
  class TwoLevelCache {
    var memory: Store
    var redis: Store
    var tasks: seq<Task>
    var redisTail: Option<nat>
    var hits: map<nat, Hit>
    ghost const leftover: Store

    constructor (leftover: Store)
      ensures View() == Start(leftover)
    {
      this.leftover := leftover;
      memory, redis, tasks, redisTail, hits := map[], leftover, [], None, map[];
    }

    ghost function View(): Cache
      reads this
    {
      Cache(leftover, memory, redis, tasks, redisTail, hits)
    }

    /** The new task remembers the tail it found and becomes the tail. */
    method EnqueueRedisMutation(op: Op)
      modifies this`tasks, this`redisTail
      ensures tasks == old(tasks) + [Task(op, old(redisTail), Queued, {})]
      ensures redisTail == Some(|old(tasks)|)
    {
      var previous := redisTail;
      redisTail := Some(|tasks|);
      tasks := tasks + [Task(op, previous, Queued, {})];
    }

    method Put(key: Key, value: Payload)
      modifies this
      ensures View() == Next(old(View()), Enqueue(Set(key, value)))
    {
      memory := memory[key := value];
      EnqueueRedisMutation(Set(key, value));
    }

    method Invalidate(key: Key)
      modifies this
      ensures View() == Next(old(View()), Enqueue(Delete(key)))
    {
      memory := memory - {key};
      EnqueueRedisMutation(Delete(key));
    }

    method ClearAll()
      modifies this
      ensures View() == Next(old(View()), Enqueue(Op.ClearAll))
    {
      memory := map[];
      EnqueueRedisMutation(Op.ClearAll);
    }

    /** The done-callback of task `i`: a newer tail stays. */
    method ClearRedisTail(i: nat)
      requires Enabled(View(), Retire(i))
      modifies this
      ensures View() == Next(old(View()), Retire(i))
    {
      tasks := tasks[i := tasks[i].(status := Retired(tasks[i].status.ok))];
      if redisTail == Some(i) {
        redisTail := None;
      }
    }

    /** `get_or_fetch` up to Redis's answer. */
    method Get(id: nat, key: Key) returns (known: Option<Payload>)
      requires id !in hits
      modifies this`hits
      ensures known == if key in memory then Some(memory[key]) else None
      ensures View() == if key in memory then old(View()) else Next(old(View()), ReadRedis(id, key))
    {
      if key in memory {
        return Some(memory[key]);
      }
      if key in redis {
        hits := hits[id := Hit(key, redis[key])];
      }
      known := None;
    }

    /** The answer is copied into memory, whatever has been put or invalidated since. */
    method CopyIntoMemory(id: nat) returns (loaded: Payload)
      requires id in hits
      modifies this
      ensures loaded == old(hits)[id].value && View() == Next(old(View()), Fill(id))
    {
      loaded := hits[id].value;
      memory := memory[hits[id].key := loaded];
      hits := hits - {id};
    }
  }

  ghost predicate Schedule(c: Cache, steps: seq<Step>)
    decreases |steps|
  {
    steps != [] ==> Enabled(c, steps[0]) && Schedule(Next(c, steps[0]), steps[1..])
  }

  ghost function Run(c: Cache, steps: seq<Step>): Cache
    requires Schedule(c, steps)
    decreases |steps|
  {
    if steps == [] then c else Run(Next(c, steps[0]), steps[1..])
  }

  // ---------------------------------------------------------------------------
  // First in, first out
  // ---------------------------------------------------------------------------

  /** A task that has begun has every earlier task behind it. */
  ghost predicate Ordered(tasks: seq<Task>) {
    forall i, j :: 0 <= i < j < |tasks| && !tasks[j].status.Queued? ==> Over(tasks[i])
  }

  /** A task either awaits the one before it or was enqueued when all before it were over. */
  ghost predicate Linked(tasks: seq<Task>, j: nat)
    requires j < |tasks|
  {
    match tasks[j].previous
    case Some(p) => p + 1 == j
    case None => forall i :: 0 <= i < j ==> Over(tasks[i])
  }

  ghost predicate Chained(c: Cache) {
    && Ordered(c.tasks)
    && (forall j: nat :: j < |c.tasks| ==> Linked(c.tasks, j))
    && match c.tail
       case Some(k) => k + 1 == |c.tasks| && !c.tasks[k].status.Retired?
       case None => forall i :: 0 <= i < |c.tasks| ==> Over(c.tasks[i])
  }

  lemma {:induction false} StepKeepsChained(c: Cache, s: Step)
    requires Chained(c) && Enabled(c, s)
    ensures Chained(Next(c, s))
  {
    var c' := Next(c, s);
    match s {
      case Begin(i) =>
        assert Linked(c.tasks, i);
        forall k | 0 <= k < i ensures Over(c.tasks[k]) {
          if c.tasks[i].previous.Some? && k < i - 1 {
            assert !c.tasks[i - 1].status.Queued?;
          }
        }
      case _ =>
    }
    forall j: nat | j < |c'.tasks| ensures Linked(c'.tasks, j) {
      if j < |c.tasks| {
        assert Linked(c.tasks, j);
      }
    }
  }

  // ---------------------------------------------------------------------------
  // Redis holds what the mutations so far have done
  // ---------------------------------------------------------------------------

  /** What a finished or partly run task has done to the store. */
  function Effect(m: Store, t: Task): Store {
    if t.op.ClearAll? then m - t.removed
    else if Over(t) && t.status.ok then Applied(m, t.op)
    else m
  }

  function Effects(m: Store, tasks: seq<Task>): Store {
    if tasks == [] then m else Effect(Effects(m, tasks[..|tasks| - 1]), tasks[|tasks| - 1])
  }

  function Fold(m: Store, ops: seq<Op>): Store {
    if ops == [] then m else Applied(Fold(m, ops[..|ops| - 1]), ops[|ops| - 1])
  }

  function Ops(tasks: seq<Task>): seq<Op> {
    seq(|tasks|, i requires 0 <= i < |tasks| => tasks[i].op)
  }

  /** A clear's SCAN has returned every key that was there when the clear began. */
  ghost predicate Swept(m: Store, tasks: seq<Task>, j: nat)
    requires j < |tasks|
  {
    var t := tasks[j];
    && (t.status.Queued? ==> t.removed == {})
    && (t.op.ClearAll? && t.status.Running? ==> Effects(m, tasks[..j]).Keys <= t.removed + t.status.todo)
    && (t.op.ClearAll? && Over(t) && t.status.ok ==> Effects(m, tasks[..j]).Keys <= t.removed)
  }

  ghost predicate Mirrors(c: Cache) {
    && c.redis == Effects(c.leftover, c.tasks)
    && forall j: nat :: j < |c.tasks| ==> Swept(c.leftover, c.tasks, j)
  }

  /** Changing a task that has only queued tasks after it changes the effects at its place. */
  lemma {:induction false} EffectsAfterUpdate(m: Store, tasks: seq<Task>, i: nat, t: Task)
    requires i < |tasks| && forall j :: i < j < |tasks| ==> tasks[j].status.Queued? && tasks[j].removed == {}
    ensures Effects(m, tasks[i := t]) == Effect(Effects(m, tasks[..i]), t)
    ensures Effects(m, tasks) == Effect(Effects(m, tasks[..i]), tasks[i])
    decreases |tasks|
  {
    var n := |tasks| - 1;
    var tasks' := tasks[i := t];
    if i == n {
      assert tasks'[..n] == tasks[..n];
    } else {
      EffectsAfterUpdate(m, tasks[..n], i, t);
      assert tasks'[..n] == tasks[..n][i := t];
      assert tasks[..n][..i] == tasks[..i];
      assert tasks'[n] == tasks[n] && Effect(Effects(m, tasks'[..n]), tasks[n]) == Effects(m, tasks'[..n]);
      assert Effect(Effects(m, tasks[..n]), tasks[n]) == Effects(m, tasks[..n]);
    }
  }

  /** Retiring a task changes no effect. */
  lemma {:induction false} EffectsAfterRetire(m: Store, tasks: seq<Task>, i: nat)
    requires i < |tasks| && tasks[i].status.Finished?
    ensures Effects(m, tasks[i := tasks[i].(status := Retired(tasks[i].status.ok))]) == Effects(m, tasks)
    decreases |tasks|
  {
    var n := |tasks| - 1;
    var tasks' := tasks[i := tasks[i].(status := Retired(tasks[i].status.ok))];
    if i == n {
      assert tasks'[..n] == tasks[..n];
    } else {
      EffectsAfterRetire(m, tasks[..n], i);
      assert tasks'[..n] == tasks[..n][i := tasks[i].(status := Retired(tasks[i].status.ok))];
    }
  }

  lemma {:induction false} LaterAreQueued(c: Cache, i: nat)
    requires Chained(c) && Mirrors(c) && i < |c.tasks| && !Over(c.tasks[i])
    ensures forall j :: i < j < |c.tasks| ==> c.tasks[j].status.Queued? && c.tasks[j].removed == {}
    ensures c.redis == Effect(Effects(c.leftover, c.tasks[..i]), c.tasks[i])
  {
    forall j: nat | i < j < |c.tasks| ensures c.tasks[j].status.Queued? && c.tasks[j].removed == {} {
      assert Swept(c.leftover, c.tasks, j);
    }
    EffectsAfterUpdate(c.leftover, c.tasks, i, c.tasks[i]);
  }

  /** Beginning, unlinking and ending touch the one task that is due. */
  lemma {:induction false} WorkKeepsMirrors(c: Cache, s: Step, i: nat)
    requires Chained(c) && Mirrors(c) && Enabled(c, s)
    requires s == Begin(i) || (s.Unlink? && s.i == i) || (s.End? && s.i == i)
    ensures Mirrors(Next(c, s))
  {
    var c' := Next(c, s);
    LaterAreQueued(c, i);
    assert Swept(c.leftover, c.tasks, i);
    EffectsAfterUpdate(c.leftover, c.tasks, i, c'.tasks[i]);
    assert c'.tasks == c.tasks[i := c'.tasks[i]];
    assert c'.redis == Effect(Effects(c.leftover, c.tasks[..i]), c'.tasks[i]);
    forall j: nat | j < |c'.tasks| ensures Swept(c.leftover, c'.tasks, j) {
      assert Swept(c.leftover, c.tasks, j);
      if j <= i {
        assert c'.tasks[..j] == c.tasks[..j];
      }
    }
  }

  lemma {:induction false} RetireKeepsMirrors(c: Cache, i: nat)
    requires Mirrors(c) && Enabled(c, Retire(i))
    ensures Mirrors(Next(c, Retire(i)))
  {
    var c' := Next(c, Retire(i));
    EffectsAfterRetire(c.leftover, c.tasks, i);
    forall j: nat | j < |c'.tasks| ensures Swept(c.leftover, c'.tasks, j) {
      assert Swept(c.leftover, c.tasks, j);
      if j <= i {
        assert c'.tasks[..j] == c.tasks[..j];
      } else {
        EffectsAfterRetire(c.leftover, c.tasks[..j], i);
        assert c'.tasks[..j] == c.tasks[..j][i := c'.tasks[i]];
      }
    }
  }

  /** A task that waits has no effect yet. */
  lemma {:induction false} EffectsAfterEnqueue(m: Store, tasks: seq<Task>, t: Task)
    requires t.status.Queued? && t.removed == {}
    ensures Effects(m, tasks + [t]) == Effects(m, tasks)
  {
    assert (tasks + [t])[..|tasks|] == tasks;
  }

  lemma {:induction false} SameSwept(m: Store, a: seq<Task>, b: seq<Task>, j: nat)
    requires j < |a| && j < |b| && a[..j] == b[..j] && a[j] == b[j]
    ensures Swept(m, a, j) <==> Swept(m, b, j)
  {
    hide Effects;
  }

  lemma {:induction false} EnqueueKeepsMirrors(c: Cache, op: Op)
    requires Mirrors(c)
    ensures Mirrors(Next(c, Enqueue(op)))
  {
    var c' := Next(c, Enqueue(op));
    assert c'.tasks == c.tasks + [c'.tasks[|c.tasks|]] && c'.redis == c.redis;
    EffectsAfterEnqueue(c.leftover, c.tasks, c'.tasks[|c.tasks|]);
    hide Effects;
    forall j: nat | j < |c'.tasks| ensures Swept(c.leftover, c'.tasks, j) {
      if j < |c.tasks| {
        assert c'.tasks[..j] == c.tasks[..j];
        SameSwept(c.leftover, c.tasks, c'.tasks, j);
      }
    }
  }

  ghost predicate Inv(c: Cache) {
    Chained(c) && Mirrors(c)
  }

  lemma {:induction false} StepKeepsInv(c: Cache, s: Step)
    requires Inv(c) && Enabled(c, s)
    ensures Inv(Next(c, s))
  {
    StepKeepsChained(c, s);
    var c' := Next(c, s);
    match s {
      case Enqueue(op) =>
        EnqueueKeepsMirrors(c, op);
      case Begin(i) => WorkKeepsMirrors(c, s, i);
      case Unlink(i, _) => WorkKeepsMirrors(c, s, i);
      case End(i, _) => WorkKeepsMirrors(c, s, i);
      case Retire(i) => RetireKeepsMirrors(c, i);
      case _ =>
    }
  }

  lemma {:induction false} RunKeepsInv(c: Cache, steps: seq<Step>)
    requires Inv(c) && Schedule(c, steps)
    ensures Inv(Run(c, steps)) && Run(c, steps).leftover == c.leftover
    decreases |steps|
  {
    if steps != [] {
      StepKeepsInv(c, steps[0]);
      RunKeepsInv(Next(c, steps[0]), steps[1..]);
    }
  }

  // ---------------------------------------------------------------------------
  // Main results
  // ---------------------------------------------------------------------------

  /**
   In every run the mutations execute one at a time in enqueue order, even as the tail is
   cleared and recreated: a task that has begun has all earlier ones over, all later ones
   have not begun if it is not over, and Redis holds the effects so far.
   */
  lemma {:induction false} OneAtATimeInOrder(leftover: Store, steps: seq<Step>, j: nat)
    requires Schedule(Start(leftover), steps) && j < |Run(Start(leftover), steps).tasks|
    requires !Run(Start(leftover), steps).tasks[j].status.Queued?
    ensures var c := Run(Start(leftover), steps);
      && (forall i :: 0 <= i < j ==> Over(c.tasks[i]))
      && (!Over(c.tasks[j]) ==> forall k :: j < k < |c.tasks| ==> c.tasks[k].status.Queued?)
      && c.redis == Effects(leftover, c.tasks)
  {
    RunKeepsInv(Start(leftover), steps);
  }

  ghost predicate Drained(c: Cache) {
    forall i :: 0 <= i < |c.tasks| ==> Over(c.tasks[i]) && c.tasks[i].status.ok
  }

  lemma {:induction false} SuccessfulEffects(m: Store, tasks: seq<Task>)
    requires forall j: nat :: j < |tasks| ==> Swept(m, tasks, j) && Over(tasks[j]) && tasks[j].status.ok
    ensures Effects(m, tasks) == Fold(m, Ops(tasks))
  {
    if tasks != [] {
      var n := |tasks| - 1;
      forall j: nat | j < n ensures Swept(m, tasks[..n], j) && Over(tasks[..n][j]) && tasks[..n][j].status.ok {
        assert Swept(m, tasks, j);
        assert tasks[..n][..j] == tasks[..j];
      }
      SuccessfulEffects(m, tasks[..n]);
      assert Ops(tasks)[..n] == Ops(tasks[..n]);
      assert Swept(m, tasks, n);
    }
  }

  /**
   Once the chain has drained with every mutation successful, Redis holds exactly the fold of
   the put, invalidate and clear_all log.
   */
  lemma {:induction false} DrainedRedis(leftover: Store, steps: seq<Step>)
    requires Schedule(Start(leftover), steps) && Drained(Run(Start(leftover), steps))
    ensures Run(Start(leftover), steps).redis == Fold(leftover, Ops(Run(Start(leftover), steps).tasks))
  {
    RunKeepsInv(Start(leftover), steps);
    var c := Run(Start(leftover), steps);
    forall j: nat | j < |c.tasks| ensures Swept(leftover, c.tasks, j) && Over(c.tasks[j]) && c.tasks[j].status.ok {
    }
    SuccessfulEffects(leftover, c.tasks);
  }

  /** The chain is never stuck: while some task is not over, some task can move on. */
  lemma {:induction false} NeverStuck(c: Cache, j: nat) returns (s: Step)
    requires Inv(c) && j < |c.tasks| && !Over(c.tasks[j])
    ensures Enabled(c, s) && (s.Begin? || s.Unlink? || s.End?)
    ensures s.Unlink? ==> s.keys != {} && s.keys <= c.tasks[s.i].status.todo
    decreases j
  {
    if i: nat :| i < j && !Over(c.tasks[i]) {
      s := NeverStuck(c, i);
    } else if c.tasks[j].status.Queued? {
      assert Linked(c.tasks, j);
      s := Begin(j);
    } else if c.tasks[j].op.ClearAll? && c.tasks[j].status.todo != {} {
      s := Unlink(j, c.tasks[j].status.todo);
    } else {
      s := End(j, true);
    }
  }

  // ---------------------------------------------------------------------------
  // Reading Redis while mutations are queued
  // ---------------------------------------------------------------------------

  predicate Touches(op: Op, key: Key) {
    match op
    case Set(k, _) => k == key
    case Delete(k) => k == key
    case ClearAll => true
  }

  /** Both stores say the same about the key. */
  predicate Agree(a: Store, b: Store, key: Key) {
    (key in a <==> key in b) && (key in a ==> a[key] == b[key])
  }

  lemma {:induction false} UntouchedByOne(m: Store, t: Task, key: Key)
    requires !Touches(t.op, key)
    ensures Agree(m, Effect(m, t), key) && Agree(m, Applied(m, t.op), key)
  {
  }

  lemma {:induction false} UntouchedKey(m: Store, tasks: seq<Task>, key: Key, settled: nat)
    requires settled <= |tasks| && forall i :: settled <= i < |tasks| ==> !Touches(tasks[i].op, key)
    ensures Agree(Effects(m, tasks[..settled]), Effects(m, tasks), key)
    ensures Agree(Fold(m, Ops(tasks[..settled])), Fold(m, Ops(tasks)), key)
    decreases |tasks|
  {
    if settled == |tasks| {
      assert tasks[..settled] == tasks;
    } else {
      var n := |tasks| - 1;
      UntouchedKey(m, tasks[..n], key, settled);
      assert tasks[..n][..settled] == tasks[..settled];
      assert Ops(tasks)[..n] == Ops(tasks[..n]);
      UntouchedByOne(Effects(m, tasks[..n]), tasks[n], key);
      UntouchedByOne(Fold(m, Ops(tasks[..n])), tasks[n], key);
      hide Effect, Applied, Ops, Touches;
    }
  }

  /** The last operation that touches the key. */
  function LastTouch(tasks: seq<Task>, key: Key): (r: Option<nat>)
    ensures r.Some? ==> r.value < |tasks| && Touches(tasks[r.value].op, key)
    ensures forall i :: (if r.Some? then r.value + 1 else 0) <= i < |tasks| ==> !Touches(tasks[i].op, key)
  {
    if tasks == [] then None
    else if Touches(tasks[|tasks| - 1].op, key) then Some(|tasks| - 1)
    else LastTouch(tasks[..|tasks| - 1], key)
  }

  /**
   Redis answers what the log says about a key exactly when no operation touches the key, or
   the last one that does has succeeded or, being a clear, already removed the key, or Redis
   agreed before that one began. What the other mutations did does not matter.
   */
  lemma {:induction false} RedisIsCurrentIff(leftover: Store, steps: seq<Step>, key: Key)
    requires Schedule(Start(leftover), steps)
    ensures var c := Run(Start(leftover), steps);
      Agree(c.redis, Fold(leftover, Ops(c.tasks)), key) <==>
      match LastTouch(c.tasks, key)
      case None => true
      case Some(j) =>
        || (Over(c.tasks[j]) && c.tasks[j].status.ok)
        || (c.tasks[j].op.ClearAll? && key in c.tasks[j].removed)
        || Agree(Effects(leftover, c.tasks[..j]), Fold(leftover, Ops(c.tasks)), key)
  {
    RunKeepsInv(Start(leftover), steps);
    var tasks := Run(Start(leftover), steps).tasks;
    match LastTouch(tasks, key) {
      case None =>
        UntouchedKey(leftover, tasks, key, 0);
        assert tasks[..0] == [];
      case Some(j) =>
        assert Swept(leftover, tasks, j);
        CurrentAfterLastTouch(leftover, tasks, key, j);
    }
  }

  lemma {:induction false} CurrentAfterLastTouch(m: Store, tasks: seq<Task>, key: Key, j: nat)
    requires j < |tasks| && Swept(m, tasks, j) && Touches(tasks[j].op, key)
    requires forall i :: j + 1 <= i < |tasks| ==> !Touches(tasks[i].op, key)
    ensures Agree(Effects(m, tasks), Fold(m, Ops(tasks)), key) <==>
            || (Over(tasks[j]) && tasks[j].status.ok)
            || (tasks[j].op.ClearAll? && key in tasks[j].removed)
            || Agree(Effects(m, tasks[..j]), Fold(m, Ops(tasks)), key)
  {
    var upTo := tasks[..j + 1];
    UntouchedKey(m, tasks, key, j + 1);
    assert upTo[..j] == tasks[..j] && Ops(upTo)[..j] == Ops(tasks[..j]);
    assert Effects(m, upTo) == Effect(Effects(m, tasks[..j]), tasks[j]);
    assert Fold(m, Ops(upTo)) == Applied(Fold(m, Ops(tasks[..j])), tasks[j].op);
    hide Effects, Fold, Ops, LastTouch;
  }

  lemma {:induction false} Prepend(c: Cache, s: Step, rest: seq<Step>)
    requires Enabled(c, s) && Schedule(Next(c, s), rest)
    ensures Schedule(c, [s] + rest) && Run(c, [s] + rest) == Run(Next(c, s), rest)
  {
    assert ([s] + rest)[1..] == rest;
  }

  lemma {:induction false} Three(c: Cache, s: Step, t: Step, u: Step, end: Cache)
    requires Enabled(c, s) && Enabled(Next(c, s), t) && Enabled(Next(Next(c, s), t), u)
    requires Next(Next(Next(c, s), t), u) == end
    ensures Schedule(c, [s, t, u]) && Run(c, [s, t, u]) == end
  {
    hide Enabled, Next;
    assert Schedule(end, []) && Run(end, []) == end;
    Prepend(Next(Next(c, s), t), u, []);
    Prepend(Next(c, s), t, [u]);
    Prepend(c, s, [t, u]);
    assert [s] + [t, u] == [s, t, u] && [t] + [u] == [t, u] && [u] + [] == [u];
  }

  lemma {:induction false} Join(c: Cache, a: seq<Step>, b: seq<Step>)
    requires Schedule(c, a) && Schedule(Run(c, a), b)
    ensures Schedule(c, a + b) && Run(c, a + b) == Run(Run(c, a), b)
    decreases |a|
  {
    if a == [] {
      assert a + b == b;
    } else {
      hide Enabled, Next;
      Join(Next(c, a[0]), a[1..], b);
      Prepend(c, a[0], a[1..] + b);
      assert a + b == [a[0]] + (a[1..] + b);
    }
  }

  /** The key has been put and the write has succeeded. */
  function Written(leftover: Store, key: Key, value: Payload): Cache {
    var task := Task(Set(key, value), None, Finished(true), {});
    Cache(leftover, map[key := value], leftover[key := value], [task], Some(0), map[])
  }

  /** Then it was invalidated, and the delete is queued. */
  function Invalidated(leftover: Store, key: Key, value: Payload): Cache {
    var written := Written(leftover, key, value);
    written.(memory := map[], tasks := written.tasks + [Task(Delete(key), Some(0), Queued, {})], tail := Some(1))
  }

  lemma {:induction false} PutAndWrite(leftover: Store, key: Key, value: Payload)
    ensures var steps := [Enqueue(Set(key, value)), Begin(0), End(0, true)];
      Schedule(Start(leftover), steps) && Run(Start(leftover), steps) == Written(leftover, key, value)
  {
    Three(Start(leftover), Enqueue(Set(key, value)), Begin(0), End(0, true), Written(leftover, key, value));
  }

  lemma {:induction false} PutAndInvalidate(leftover: Store, key: Key, value: Payload) returns (steps: seq<Step>)
    ensures Schedule(Start(leftover), steps) && Run(Start(leftover), steps) == Invalidated(leftover, key, value)
  {
    PutAndWrite(leftover, key, value);
    var written, end := Written(leftover, key, value), Invalidated(leftover, key, value);
    assert Next(written, Enqueue(Delete(key))) == end;
    assert Schedule(end, []) && Run(end, []) == end;
    Prepend(written, Enqueue(Delete(key)), []);
    steps := [Enqueue(Set(key, value)), Begin(0), End(0, true)];
    hide Schedule, Run, Next, Enabled;
    Join(Start(leftover), steps, [Enqueue(Delete(key))] + []);
    steps := steps + ([Enqueue(Delete(key))] + []);
  }

  /**
   A read between an `invalidate` and its queued delete does see the old value: put, drain,
   invalidate, and Redis still answers although the log says the key is gone.
   */
  lemma {:induction false} ReadDuringInvalidate(leftover: Store, key: Key, value: Payload) returns (steps: seq<Step>)
    ensures Schedule(Start(leftover), steps)
    ensures var c := Run(Start(leftover), steps);
      key in c.redis && c.redis[key] == value && key !in c.memory && key !in Fold(leftover, Ops(c.tasks))
  {
    steps := PutAndInvalidate(leftover, key, value);
    var c := Invalidated(leftover, key, value);
    assert Ops(c.tasks) == [Set(key, value), Delete(key)];
    assert [Set(key, value), Delete(key)][..1] == [Set(key, value)];
  }

  // ---------------------------------------------------------------------------
  // What memory holds
  // ---------------------------------------------------------------------------

  /** What is still in memory is what the log says. */
  ghost predicate MemoryAgrees(c: Cache) {
    var whole := Fold(c.leftover, Ops(c.tasks));
    forall key :: key in c.memory ==> key in whole && c.memory[key] == whole[key]
  }

  /** The answer about to be copied is what the log says. */
  predicate CurrentHit(c: Cache, id: nat)
    requires id in c.hits
  {
    var whole := Fold(c.leftover, Ops(c.tasks));
    c.hits[id].key in whole && c.hits[id].value == whole[c.hits[id].key]
  }

  /** The last operation on the answer's key puts exactly that value, or without one it was left over. */
  predicate StillPut(c: Cache, id: nat)
    requires id in c.hits
  {
    var Hit(key, value) := c.hits[id];
    match LastTouch(c.tasks, key)
    case None => key in c.leftover && c.leftover[key] == value
    case Some(j) => c.tasks[j].op == Set(key, value)
  }

  /** What the log says about a key is what the last operation on it says. */
  lemma {:induction false} LogAtKey(m: Store, tasks: seq<Task>, key: Key)
    ensures match LastTouch(tasks, key)
      case None => Agree(Fold(m, Ops(tasks)), m, key)
      case Some(j) =>
        var whole := Fold(m, Ops(tasks));
        if tasks[j].op.Set? then key in whole && whole[key] == tasks[j].op.value else key !in whole
  {
    match LastTouch(tasks, key) {
      case None =>
        UntouchedKey(m, tasks, key, 0);
        assert tasks[..0] == [];
      case Some(j) =>
        UntouchedKey(m, tasks, key, j + 1);
        var upTo := tasks[..j + 1];
        assert upTo[..j] == tasks[..j] && Ops(upTo)[..j] == Ops(tasks[..j]);
        assert Fold(m, Ops(upTo)) == Applied(Fold(m, Ops(tasks[..j])), tasks[j].op);
    }
  }

  lemma {:induction false} CurrentIffStillPut(c: Cache, id: nat)
    requires id in c.hits
    ensures CurrentHit(c, id) <==> StillPut(c, id)
  {
    LogAtKey(c.leftover, c.tasks, c.hits[id].key);
  }

  ghost predicate FillsStillPut(c: Cache, steps: seq<Step>)
    requires Schedule(c, steps)
    decreases |steps|
  {
    steps != [] ==>
      && (steps[0].Fill? ==> StillPut(c, steps[0].id))
      && FillsStillPut(Next(c, steps[0]), steps[1..])
  }

  ghost predicate AlwaysAgrees(c: Cache, steps: seq<Step>)
    requires Schedule(c, steps)
    decreases |steps|
  {
    MemoryAgrees(c) && (steps != [] ==> AlwaysAgrees(Next(c, steps[0]), steps[1..]))
  }

  lemma {:induction false} StepKeepsMemory(c: Cache, s: Step)
    requires MemoryAgrees(c) && Enabled(c, s)
    ensures MemoryAgrees(Next(c, s)) <==> (s.Fill? ==> CurrentHit(c, s.id))
  {
    var c' := Next(c, s);
    if s.Enqueue? {
      assert Ops(c'.tasks)[..|c.tasks|] == Ops(c.tasks);
    } else {
      assert Ops(c'.tasks) == Ops(c.tasks);
    }
    if s.Fill? {
      assert c.hits[s.id].key in c'.memory;
    }
  }

  /**
   Memory agrees with the log throughout a run exactly when, at the moment each Redis answer
   is copied, the last operation on its key puts that very value, or none touches the key and
   the value was left over.
   */
  lemma {:induction false} MemoryAgreesIffStillPut(c: Cache, steps: seq<Step>)
    requires Schedule(c, steps) && MemoryAgrees(c)
    ensures AlwaysAgrees(c, steps) <==> FillsStillPut(c, steps)
    decreases |steps|
  {
    if steps != [] {
      StepKeepsMemory(c, steps[0]);
      if steps[0].Fill? {
        CurrentIffStillPut(c, steps[0].id);
      }
      hide MemoryAgrees, CurrentHit, StillPut, Next;
      if MemoryAgrees(Next(c, steps[0])) {
        MemoryAgreesIffStillPut(Next(c, steps[0]), steps[1..]);
      }
    }
  }

  /** Operations are only ever added to the log, and an answer waits unchanged. */
  lemma {:induction false} LogGrows(c: Cache, steps: seq<Step>, id: nat)
    requires Schedule(c, steps) && id in c.hits
    requires forall i :: 0 <= i < |steps| ==> steps[i] != Fill(id)
    ensures var end := Run(c, steps);
      && end.leftover == c.leftover && |c.tasks| <= |end.tasks|
      && (forall i :: 0 <= i < |c.tasks| ==> end.tasks[i].op == c.tasks[i].op)
      && id in end.hits && end.hits[id] == c.hits[id]
    decreases |steps|
  {
    if steps != [] {
      StepGrows(c, steps[0], id);
      hide Next, Enabled;
      LogGrows(Next(c, steps[0]), steps[1..], id);
    }
  }

  lemma {:induction false} StepGrows(c: Cache, s: Step, id: nat)
    requires Enabled(c, s) && id in c.hits && s != Fill(id)
    ensures var c' := Next(c, s);
      && c'.leftover == c.leftover && |c.tasks| <= |c'.tasks|
      && (forall i :: 0 <= i < |c.tasks| ==> c'.tasks[i].op == c.tasks[i].op)
      && id in c'.hits && c'.hits[id] == c.hits[id]
  {
  }

  /**
   An answer that was current when Redis gave it is current when it is copied exactly when no
   operation on its key was enqueued meanwhile, or the last one puts the same value again.
   */
  lemma {:induction false} HitStaysCurrentIff(c: Cache, key: Key, id: nat, steps: seq<Step>)
    requires id !in c.hits && key !in c.memory && key in c.redis && Agree(c.redis, Fold(c.leftover, Ops(c.tasks)), key)
    requires Schedule(c, [ReadRedis(id, key)] + steps)
    requires forall i :: 0 <= i < |steps| ==> steps[i] != Fill(id)
    ensures var end := Run(c, [ReadRedis(id, key)] + steps);
      && id in end.hits
      && (CurrentHit(end, id) <==>
          match LastTouch(end.tasks, key)
          case None => true
          case Some(j) => j < |c.tasks| || end.tasks[j].op == Set(key, c.redis[key]))
  {
    var all := [ReadRedis(id, key)] + steps;
    assert all[1..] == steps;
    var read := Next(c, all[0]);
    LogGrows(read, steps, id);
    var end := Run(read, steps);
    LogAtKey(end.leftover, end.tasks, key);
    LogAtKey(c.leftover, c.tasks, key);
    if LastTouch(end.tasks, key).Some? ==> LastTouch(end.tasks, key).value < |c.tasks| {
      SameLastTouch(c.tasks, end.tasks, key);
    }
  }

  /** If nothing added touches the key, the last operation on it is the one it was. */
  lemma {:induction false} SameLastTouch(before: seq<Task>, after: seq<Task>, key: Key)
    requires |before| <= |after| && forall i :: 0 <= i < |before| ==> after[i].op == before[i].op
    requires LastTouch(after, key).Some? ==> LastTouch(after, key).value < |before|
    ensures LastTouch(before, key) == LastTouch(after, key)
  {
  }

  /** Once drained with every mutation successful and every copied answer current, the two layers agree. */
  lemma {:induction false} DrainedLayersAgree(leftover: Store, steps: seq<Step>)
    requires Schedule(Start(leftover), steps) && FillsStillPut(Start(leftover), steps)
    requires Drained(Run(Start(leftover), steps))
    ensures var c := Run(Start(leftover), steps);
      forall key :: key in c.memory ==> key in c.redis && c.memory[key] == c.redis[key]
  {
    DrainedRedis(leftover, steps);
    RunKeepsInv(Start(leftover), steps);
    MemoryAgreesIffStillPut(Start(leftover), steps);
    AgreesAtEnd(Start(leftover), steps);
  }

  lemma {:induction false} AgreesAtEnd(c: Cache, steps: seq<Step>)
    requires Schedule(c, steps) && AlwaysAgrees(c, steps)
    ensures MemoryAgrees(Run(c, steps))
    decreases |steps|
  {
    if steps != [] {
      AgreesAtEnd(Next(c, steps[0]), steps[1..]);
    }
  }

  /** The delete has run between the answer and its copy into memory. */
  lemma {:induction false} CopyAfterDelete(leftover: Store, key: Key, value: Payload)
    ensures var c, steps := Invalidated(leftover, key, value), [ReadRedis(0, key), Begin(1), End(1, true), Fill(0)];
      && Schedule(c, steps) && Drained(Run(c, steps))
      && Run(c, steps).memory == map[key := value] && key !in Run(c, steps).redis
  {
    var c := Invalidated(leftover, key, value);
    var read := c.(hits := map[0 := Hit(key, value)]);
    var tasks := [c.tasks[0], Task(Delete(key), Some(0), Finished(true), {})];
    var end := Cache(leftover, map[key := value], leftover[key := value] - {key}, tasks, Some(1), map[]);
    assert Next(c, ReadRedis(0, key)) == read;
    Three(read, Begin(1), End(1, true), Fill(0), end);
    Prepend(c, ReadRedis(0, key), [Begin(1), End(1, true), Fill(0)]);
    var rest := [Begin(1), End(1, true), Fill(0)];
    assert [ReadRedis(0, key)] + rest == [ReadRedis(0, key), Begin(1), End(1, true), Fill(0)];
  }

  /**
   A read made while the delete is queued outlives the delete: put, drain, invalidate, read,
   drain, copy. Every mutation has succeeded, and memory holds a key that Redis does not.
   */
  lemma {:induction false} StaleCopyExample(leftover: Store, key: Key, value: Payload) returns (steps: seq<Step>)
    ensures Schedule(Start(leftover), steps) && Drained(Run(Start(leftover), steps))
    ensures var c := Run(Start(leftover), steps); c.memory == map[key := value] && key !in c.redis
  {
    steps := PutAndInvalidate(leftover, key, value);
    CopyAfterDelete(leftover, key, value);
    hide Schedule, Run, Drained, Invalidated;
    Join(Start(leftover), steps, [ReadRedis(0, key), Begin(1), End(1, true), Fill(0)]);
    steps := steps + [ReadRedis(0, key), Begin(1), End(1, true), Fill(0)];
  }
}
