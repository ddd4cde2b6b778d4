/**
 That the ordered Redis mutations of module RedisChain can always be brought to an end: as long
 as none has failed and Redis takes every call, the chain drains, its tail is cleared, and Redis
 holds the whole log.
 */
module RedisDrains {
  import opened RedisChain
  import opened Wrappers

  /** The same log, with task `j` over and successful and every other task as it was. */
  ghost predicate Done(c: Cache, c': Cache, j: nat)
    requires j < |c.tasks|
  {
    && |c'.tasks| == |c.tasks| && c'.memory == c.memory && Inv(c') && c'.leftover == c.leftover
    && (forall i :: 0 <= i < |c.tasks| ==> c'.tasks[i].op == c.tasks[i].op)
    && (forall i :: 0 <= i < |c.tasks| && i != j ==> c'.tasks[i] == c.tasks[i])
    && c'.tasks[j].status == Finished(true)
  }

  lemma {:induction false} Single(c: Cache, s: Step)
    requires Enabled(c, s)
    ensures Schedule(c, [s]) && Run(c, [s]) == Next(c, s)
  {
    assert [s][1..] == [];
    assert Schedule(Next(c, s), []) && Run(Next(c, s), []) == Next(c, s);
  }

  lemma {:induction false} EndsNow(c: Cache, j: nat)
    requires Inv(c) && j < |c.tasks| && c.tasks[j].status.Running?
    requires c.tasks[j].op.ClearAll? ==> c.tasks[j].status.todo == {}
    ensures Schedule(c, [End(j, true)]) && Done(c, Run(c, [End(j, true)]), j)
  {
    Single(c, End(j, true));
    StepKeepsInv(c, End(j, true));
  }

  /** A running clear removes what is left in one batch; any other mutation is one call. */
  lemma {:induction false} RunningEnds(c: Cache, j: nat) returns (steps: seq<Step>)
    requires Inv(c) && j < |c.tasks| && c.tasks[j].status.Running?
    ensures Schedule(c, steps) && Done(c, Run(c, steps), j)
  {
    if c.tasks[j].op.ClearAll? {
      var unlink := Unlink(j, c.tasks[j].status.todo);
      var swept := Next(c, unlink);
      StepKeepsInv(c, unlink);
      EndsNow(swept, j);
      Prepend(c, unlink, [End(j, true)]);
      steps := [unlink] + [End(j, true)];
    } else {
      EndsNow(c, j);
      steps := [End(j, true)];
    }
  }

  /** The first task that is not over can be brought to its end. */
  lemma {:induction false} FirstEnds(c: Cache, j: nat) returns (steps: seq<Step>)
    requires Inv(c) && j < |c.tasks| && !Over(c.tasks[j]) && forall i :: 0 <= i < j ==> Over(c.tasks[i])
    ensures Schedule(c, steps) && Done(c, Run(c, steps), j)
  {
    if c.tasks[j].status.Queued? {
      assert Linked(c.tasks, j);
      var begun := Next(c, Begin(j));
      StepKeepsInv(c, Begin(j));
      var rest := RunningEnds(begun, j);
      Prepend(c, Begin(j), rest);
      steps := [Begin(j)] + rest;
    } else {
      steps := RunningEnds(c, j);
    }
  }

  /** Only tasks that were not over have changed, and they are over and successful. */
  ghost predicate Drains(c: Cache, c': Cache) {
    && |c'.tasks| == |c.tasks| && c'.memory == c.memory && Inv(c') && c'.leftover == c.leftover
    && (forall i :: 0 <= i < |c.tasks| ==> c'.tasks[i].op == c.tasks[i].op && Over(c'.tasks[i]))
    && (forall i :: 0 <= i < |c.tasks| ==>
        c'.tasks[i].status.ok == if Over(c.tasks[i]) then c.tasks[i].status.ok else true)
  }

  lemma {:induction false} DrainFrom(c: Cache, j: nat) returns (steps: seq<Step>)
    requires Inv(c) && j <= |c.tasks| && forall i :: 0 <= i < j ==> Over(c.tasks[i])
    ensures Schedule(c, steps) && Drains(c, Run(c, steps))
    decreases |c.tasks| - j
  {
    if j == |c.tasks| {
      steps := [];
      assert Schedule(c, []) && Run(c, []) == c;
    } else if Over(c.tasks[j]) {
      steps := DrainFrom(c, j + 1);
    } else {
      var first := FirstEnds(c, j);
      hide Inv, Next, Enabled;
      var rest := DrainFrom(Run(c, first), j + 1);
      Join(c, first, rest);
      steps := first + rest;
    }
  }

  lemma {:induction false} RetiredHasNoTail(c: Cache)
    requires Inv(c) && forall i :: 0 <= i < |c.tasks| ==> c.tasks[i].status.Retired?
    ensures c.tail == None && Drains(c, c)
  {
  }

  lemma {:induction false} RetireOne(c: Cache, j: nat)
    requires Inv(c) && j < |c.tasks| && c.tasks[j].status.Finished?
    ensures Enabled(c, Retire(j)) && Inv(Next(c, Retire(j)))
    ensures var c' := Next(c, Retire(j));
      && c'.tasks == c.tasks[j := c.tasks[j].(status := Retired(c.tasks[j].status.ok))]
      && c'.memory == c.memory && c'.leftover == c.leftover
  {
    StepKeepsInv(c, Retire(j));
  }

  /** The done-callbacks run one after the other. */
  lemma {:induction false} RetireFrom(c: Cache, j: nat) returns (steps: seq<Step>)
    requires Inv(c) && j <= |c.tasks| && forall i :: 0 <= i < |c.tasks| ==> Over(c.tasks[i])
    requires forall i :: 0 <= i < j ==> c.tasks[i].status.Retired?
    ensures Schedule(c, steps) && Drains(c, Run(c, steps)) && Run(c, steps).tail == None
    ensures forall i :: 0 <= i < |c.tasks| ==> Run(c, steps).tasks[i].status.Retired?
    decreases |c.tasks| - j
  {
    if j == |c.tasks| {
      steps := [];
      assert Schedule(c, []) && Run(c, []) == c;
      RetiredHasNoTail(c);
    } else if c.tasks[j].status.Retired? {
      steps := RetireFrom(c, j + 1);
    } else {
      RetireOne(c, j);
      hide Inv, Next, Enabled;
      var rest := RetireFrom(Next(c, Retire(j)), j + 1);
      Prepend(c, Retire(j), rest);
      steps := [Retire(j)] + rest;
    }
  }

  /**
   From every run in which no mutation has failed so far, the chain can still drain whole: every
   task retires, the tail is cleared, memory is left alone, and Redis ends as the fold of the
   log from what was left over.
   */
  lemma {:induction false} ChainCanDrain(leftover: Store, before: seq<Step>) returns (steps: seq<Step>)
    requires Schedule(Start(leftover), before)
    requires var c := Run(Start(leftover), before);
      forall i :: 0 <= i < |c.tasks| && Over(c.tasks[i]) ==> c.tasks[i].status.ok
    ensures var c := Run(Start(leftover), before);
      && Schedule(c, steps)
      && var end := Run(c, steps);
        && (forall i :: 0 <= i < |end.tasks| ==> end.tasks[i].status == Retired(true))
        && end.tail == None && end.memory == c.memory && Ops(end.tasks) == Ops(c.tasks)
        && end.redis == Fold(leftover, Ops(c.tasks))
  {
    var c := Run(Start(leftover), before);
    RunKeepsInv(Start(leftover), before);
    var drain := DrainFrom(c, 0);
    var mid := Run(c, drain);
    var retire := RetireFrom(mid, 0);
    hide Next, Enabled, Inv;
    Join(c, drain, retire);
    steps := drain + retire;
    Join(Start(leftover), before, steps);
    assert Ops(Run(c, steps).tasks) == Ops(c.tasks);
    DrainedRedis(leftover, before + steps);
  }
}
