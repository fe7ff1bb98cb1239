/**
 No reachable state of the concurrent server is stuck, every run without new
 arrivals is bounded and can be driven to the end, and the one way to block
 forever that the code has is out of a fresh server's reach.
 */
module MachineProgress {
  import opened Wrappers
  import opened Protocol
  import opened ServerSpec
  import opened Machine
  import opened MachineInvariant

  //---------------------------------------------------------------------------
  // Guards
  //---------------------------------------------------------------------------

  // In every interleaving, whoever seeks or transfers still has its stateid in the table, on the
  // file it cloned.
  lemma TransferStateidLive(root: Path, disk: Disk, run: seq<Action>, t: nat)
    requires Play(Start(root, disk), run).Some?
    requires var g := Play(Start(root, disk), run).value;
      t < |g.tasks| && (g.tasks[t].pc.Cloned? || g.tasks[t].pc.Sought?)
    ensures var g := Play(Start(root, disk), run).value;
      OnFile(g.server, g.tasks[t], g.tasks[t].pc.file)
  {
    ReachableInv(root, disk, run);
    var g := Play(Start(root, disk), run).value;
    assert TaskOk(g.server, g.tasks[t]);
  }

  // In every interleaving, whoever is inside a handler has its guard: Open and Close alone on the
  // stateids, Read and Write among the readers of them, and the five operations on a filehandle
  // among the readers of the handles.
  lemma GuardsHeld(root: Path, disk: Disk, run: seq<Action>, t: nat)
    requires Play(Start(root, disk), run).Some?
    requires var g := Play(Start(root, disk), run).value;
      t < |g.tasks| && InHandler(g.tasks[t].pc)
    ensures var g := Play(Start(root, disk), run).value;
      var c, ids, handles := g.tasks[t].locals, g.stateidLock, g.handleLock;
      && c.ops != []
      && var op := c.ops[0];
      && (op.Open? || op.Close? ==> ids.writer == Some(t) && ids.readers == {})
      && (op.Read? || op.Write? ==> ids.writer == None && t in ids.readers)
      && (c.fh.Some? && (op.Access? || op.Commit? || op.Create? || op.GetAttr? || op.Lookup?) ==>
            handles.writer == None && t in handles.readers)
  {
    ReachableInv(root, disk, run);
    var g := Play(Start(root, disk), run).value;
    assert TaskOk(g.server, g.tasks[t]);
    assert LockOk(g.stateidLock, StateidTable, g.tasks) && LockOk(g.handleLock, HandleTable, g.tasks);
    var task := g.tasks[t];
    assert Holds(task, StateidTable, Exclusive) || Holds(task, StateidTable, Shared)
      || Holds(task, HandleTable, Shared) || LockFor(task.locals).None?;
  }

  // In every interleaving, a handler under an exclusive guard of a table is the only one under it.
  lemma ExclusiveIsAlone(root: Path, disk: Disk, run: seq<Action>, l: LockId, t: nat, u: nat, m: Mode)
    requires Play(Start(root, disk), run).Some?
    requires var g := Play(Start(root, disk), run).value;
      t < |g.tasks| && u < |g.tasks| && Holds(g.tasks[t], l, Exclusive) && Holds(g.tasks[u], l, m)
    ensures t == u
  {
    ReachableInv(root, disk, run);
    var g := Play(Start(root, disk), run).value;
    assert LockOk(LockOf(g, l), l, g.tasks);
    assert LockOf(g, l).writer == Some(t);
    assert m.Shared? ==> u in LockOf(g, l).readers;
  }

  function QueueOf(g: State, l: LockId): seq<Waiter> {
    LockOf(g, l).queue
  }

  // A step takes at most the first request off a queue, and that is the stepping task's own.
  lemma QueueStep(g: State, a: Action, l: LockId)
    requires Perform(g, a).Some?
    ensures var q, q' := QueueOf(g, l), QueueOf(Perform(g, a).value, l);
      || q <= q'
      || (q != [] && q' == q[1..] && a.Go? && q[0].task == a.task)
  {
  }

  lemma StaysBehind(g: State, g': State, a: Action, l: LockId, i: nat, j: nat) returns (gone: nat)
    requires Perform(g, a) == Some(g') && i < j < |QueueOf(g, l)|
    requires a.Go? ==> a.task != QueueOf(g, l)[i].task
    ensures var q, q' := QueueOf(g, l), QueueOf(g', l);
      gone <= i && j - gone < |q'| && q'[i - gone] == q[i] && q'[j - gone] == q[j]
  {
    QueueStep(g, a, l);
    gone := if QueueOf(g, l) <= QueueOf(g', l) then 0 else 1;
  }

  // In every run a request waits as long as an earlier one for the same lock does.
  lemma {:induction false} NoOvertaking(g: State, run: seq<Action>, l: LockId, i: nat, j: nat)
    returns (i': nat, j': nat)
    requires Play(g, run).Some? && i < j < |QueueOf(g, l)|
    requires forall n :: 0 <= n < |run| && run[n].Go? ==> run[n].task != QueueOf(g, l)[i].task
    ensures var q, q' := QueueOf(g, l), QueueOf(Play(g, run).value, l);
      i' < j' < |q'| && q'[i'] == q[i] && q'[j'] == q[j]
    decreases |run|
  {
    if run == [] {
      return i, j;
    }
    var g' := Perform(g, run[0]).value;
    var gone := StaysBehind(g, g', run[0], l, i, j);
    i', j' := NoOvertaking(g', run[1..], l, i - gone, j - gone);
  }

  //---------------------------------------------------------------------------
  // Someone can always step
  //---------------------------------------------------------------------------

  predicate AllDone(g: State) {
    forall t :: 0 <= t < |g.tasks| ==> g.tasks[t].pc.Done?
  }

  ghost predicate Enabled(g: State, t: nat) {
    t < |g.tasks| && forall e :: Next(g, t, e).Some?
  }

  // With nobody inside a handler, the first in a queue is granted.
  lemma HeadIsGranted(g: State, t: nat) returns (head: nat)
    requires Inv(g) && t < |g.tasks| && g.tasks[t].pc.Waiting?
    requires forall u :: 0 <= u < |g.tasks| ==> !InHandler(g.tasks[u].pc)
    ensures Enabled(g, head)
  {
    assert TaskOk(g.server, g.tasks[t]);
    var (l, m) := LockFor(g.tasks[t].locals).value;
    var k := LockOf(g, l);
    assert LockOk(k, l, g.tasks);
    assert Asks(g.tasks[t], l, m);
    assert InQueue(k, t);
    assert QueuedFor(k, l, g.tasks, 0);
    head := k.queue[0].task;
    assert forall u: nat :: u !in k.readers;
  }

  lemma SomeoneEnabled(g: State, t: nat) returns (u: nat)
    requires Inv(g) && t < |g.tasks| && !g.tasks[t].pc.Done?
    ensures Enabled(g, u)
  {
    if v :| 0 <= v < |g.tasks| && !g.tasks[v].pc.Waiting? && !g.tasks[v].pc.Done? {
      assert TaskOk(g.server, g.tasks[v]);
      u := v;
    } else {
      u := HeadIsGranted(g, t);
    }
  }

  // From a fresh server no reachable state is stuck: while some compound is unfinished, some task
  // can step, whatever the operating system decides.
  lemma NeverStuck(root: Path, disk: Disk, run: seq<Action>)
    requires Play(Start(root, disk), run).Some?
    ensures var g := Play(Start(root, disk), run).value;
      AllDone(g) || exists u :: Enabled(g, u)
  {
    ReachableInv(root, disk, run);
    var g := Play(Start(root, disk), run).value;
    if t :| 0 <= t < |g.tasks| && !g.tasks[t].pc.Done? {
      var u := SomeoneEnabled(g, t);
    }
  }

  //---------------------------------------------------------------------------
  // Runs without arrivals are bounded
  //---------------------------------------------------------------------------

  // More than the steps a task still has to take.
  function TaskWork(task: Task): int {
    var n := |task.locals.ops|;
    match task.pc
    case Done => 0
    case Ready => if Finished(task.locals) then 1 else 8 * n + 1
    case Waiting => 8 * n
    case Holding => 8 * n - 1
    case Upgrading(_, _) => 8 * n - 2
    case Cloned(_) => 8 * n - 3
    case Sought(_) => 8 * n - 4
    case Finishing(_) => 8 * n - 5
  }

  function Work(tasks: seq<Task>): int {
    if tasks == [] then 0 else TaskWork(tasks[0]) + Work(tasks[1..])
  }

  lemma {:induction false} WorkUpdate(tasks: seq<Task>, t: nat, task: Task)
    requires t < |tasks|
    ensures Work(tasks[t := task]) == Work(tasks) - TaskWork(tasks[t]) + TaskWork(task)
    decreases |tasks|
  {
    if t > 0 {
      WorkUpdate(tasks[1..], t - 1, task);
      assert tasks[t := task][1..] == tasks[1..][t - 1 := task];
    } else {
      assert tasks[t := task][1..] == tasks[1..];
    }
  }

  lemma {:induction false} WorkNonNegative(g: State, from: nat)
    requires Inv(g) && from <= |g.tasks|
    ensures Work(g.tasks[from..]) >= 0
    decreases |g.tasks| - from
  {
    if from < |g.tasks| {
      assert TaskOk(g.server, g.tasks[from]);
      assert g.tasks[from..][1..] == g.tasks[from + 1..];
      WorkNonNegative(g, from + 1);
    }
  }

  // Every step moves its own task, and only that, closer to the end.
  lemma TaskWorks(g: State, t: nat, e: Choice)
    requires Inv(g) && t < |g.tasks| && Next(g, t, e).Some?
    ensures var g' := Next(g, t, e).value;
      g'.tasks == g.tasks[t := g'.tasks[t]] && TaskWork(g'.tasks[t]) < TaskWork(g.tasks[t])
  {
    assert TaskOk(g.server, g.tasks[t]);
    var c, pc := g.tasks[t].locals, g.tasks[t].pc;
    if pc.Holding? || pc.Cloned? || pc.Sought? || (pc.Ready? && !Finished(c) && LockFor(c).None?) {
      OperationWorks(g, t, e);
    }
  }

  // The same of the steps inside one operation.
  lemma OperationWorks(g: State, t: nat, e: Choice)
    requires Inv(g) && t < |g.tasks| && Next(g, t, e).Some?
    requires var pc := g.tasks[t].pc;
      || pc.Holding? || pc.Cloned? || pc.Sought?
      || (pc.Ready? && !Finished(g.tasks[t].locals) && LockFor(g.tasks[t].locals).None?)
    ensures var g' := Next(g, t, e).value;
      g'.tasks == g.tasks[t := g'.tasks[t]] && TaskWork(g'.tasks[t]) < TaskWork(g.tasks[t])
  {
    assert TaskOk(g.server, g.tasks[t]);
  }

  lemma StepWorks(g: State, t: nat, e: Choice)
    requires Inv(g) && t < |g.tasks| && Next(g, t, e).Some?
    ensures Work(Next(g, t, e).value.tasks) < Work(g.tasks)
  {
    var g' := Next(g, t, e).value;
    TaskWorks(g, t, e);
    WorkUpdate(g.tasks, t, g'.tasks[t]);
  }

  predicate NoArrivals(run: seq<Action>) {
    forall i :: 0 <= i < |run| ==> run[i].Go?
  }

  // The work at hand bounds the length of every run that takes no new compounds.
  lemma {:induction false} RunsAreBounded(g: State, run: seq<Action>)
    requires Inv(g) && NoArrivals(run) && Play(g, run).Some?
    ensures |run| <= Work(g.tasks)
    decreases |run|
  {
    if run == [] {
      WorkNonNegative(g, 0);
      assert g.tasks[0..] == g.tasks;
    } else {
      var g' := Perform(g, run[0]).value;
      PerformKeeps(g, run[0]);
      StepWorks(g, run[0].task, run[0].choice);
      RunsAreBounded(g', run[1..]);
    }
  }

  // Steps of tasks only, drawing the given choices.
  ghost predicate Draws(run: seq<Action>, env: nat -> Choice, tick: nat) {
    forall i :: 0 <= i < |run| ==> run[i].Go? && run[i].choice == env(tick + i)
  }

  lemma DrawOne(g: State, u: nat, env: nat -> Choice, tick: nat, rest: seq<Action>)
    requires u < |g.tasks| && Next(g, u, env(tick)).Some? && Draws(rest, env, tick + 1)
    ensures var run := [Go(u, env(tick))] + rest;
      Draws(run, env, tick) && Play(g, run) == Play(Next(g, u, env(tick)).value, rest)
  {
    var run := [Go(u, env(tick))] + rest;
    assert run[1..] == rest;
    forall i | 0 <= i < |run| ensures run[i].Go? && run[i].choice == env(tick + i) {
      assert i > 0 ==> run[i] == rest[i - 1];
    }
  }

  lemma StepNearsEnd(g: State, u: nat, e: Choice)
    requires Inv(g) && u < |g.tasks| && Next(g, u, e).Some?
    ensures Inv(Next(g, u, e).value) && 0 <= Work(Next(g, u, e).value.tasks) < Work(g.tasks)
  {
    var g' := Next(g, u, e).value;
    StepKeeps(g, u, e);
    StepWorks(g, u, e);
    WorkNonNegative(g', 0);
    assert g'.tasks[0..] == g'.tasks;
  }

  // From every reachable state all compounds can be driven to the end, taking only steps that are
  // possible, whatever the operating system decides at each step.
  lemma {:induction false} CanFinish(g: State, env: nat -> Choice, tick: nat) returns (run: seq<Action>)
    requires Inv(g)
    ensures Draws(run, env, tick) && Play(g, run).Some? && AllDone(Play(g, run).value)
    decreases Work(g.tasks)
  {
    run := [];
    if t :| 0 <= t < |g.tasks| && !g.tasks[t].pc.Done? {
      var u := SomeoneEnabled(g, t);
      StepNearsEnd(g, u, env(tick));
      var rest := CanFinish(Next(g, u, env(tick)).value, env, tick + 1);
      DrawOne(g, u, env, tick, rest);
      run := [Go(u, env(tick))] + rest;
    }
  }

  // No task can step.
  ghost predicate Halted(g: State) {
    forall t, e :: 0 <= t < |g.tasks| ==> Next(g, t, e).None?
  }

  // However the tasks are scheduled and whatever the operating system decides, a run of a fresh
  // server stops only with every compound done. Without arrivals it does stop (RunsAreBounded).
  lemma RunsEndDone(root: Path, disk: Disk, run: seq<Action>)
    requires Play(Start(root, disk), run).Some?
    ensures Halted(Play(Start(root, disk), run).value) <==> AllDone(Play(Start(root, disk), run).value)
  {
    var g := Play(Start(root, disk), run).value;
    NeverStuck(root, disk, run);
    if u :| Enabled(g, u) {
      var e := Choice(seq(16, _ => 0), 0, 0, _ => None, (_, _, _) => None, _ => false, _ => None, _ => false,
                      _ => false, false, false, Stopped(0), false);
      assert Next(g, u, e).Some?;
    }
  }

  //---------------------------------------------------------------------------
  // The self-upgrade
  //---------------------------------------------------------------------------

  // A task that waits to write under its own read guard.
  predicate SelfBlocked(g: State, t: nat) {
    t < |g.tasks| && g.tasks[t].pc.Upgrading? && t in g.handleLock.readers
  }

  // Such a task never moves again, in any run.
  lemma {:induction false} UpgradeNeverReturns(g: State, t: nat, run: seq<Action>)
    requires SelfBlocked(g, t) && Play(g, run).Some?
    ensures SelfBlocked(Play(g, run).value, t) && Play(g, run).value.tasks[t] == g.tasks[t]
    decreases |run|
  {
    if run != [] {
      UpgradeStep(g, t, run[0]);
      UpgradeNeverReturns(Perform(g, run[0]).value, t, run[1..]);
    }
  }

  lemma UpgradeStep(g: State, t: nat, a: Action)
    requires SelfBlocked(g, t) && Perform(g, a).Some?
    ensures SelfBlocked(Perform(g, a).value, t) && Perform(g, a).value.tasks[t] == g.tasks[t]
  {
    if a.Go? {
      assert a.task != t;
    }
  }

  // Blocked in whatever follows.
  ghost predicate BlockedForever(g: State, t: nat) {
    forall run :: Play(g, run).Some? ==> SelfBlocked(Play(g, run).value, t)
  }

  lemma BlockedNow(g: State, t: nat)
    requires BlockedForever(g, t)
    ensures SelfBlocked(g, t)
  {
    assert Play(g, []) == Some(g);
  }

  // What a Create or Lookup that resolves its parent needs to get as far as a new handle: that the
  // name is there, that the file is made (type 1), or that the directory is (type 2).
  predicate GetsNewHandle(s: Server, c: Compound, e: Choice)
    requires c.ops != []
  {
    && c.fh.Some? && c.fh.value.data in s.handles
    && var parent := s.handles[c.fh.value.data];
    match c.ops[0]
    case Lookup(a) => e.present(Join(parent, a.objectName))
    case Create(a) =>
      || (a.objectType == 1 && e.createFile(Join(parent, a.objectName)).Some?)
      || (a.objectType == 2 && e.createDir(Join(parent, a.objectName)))
    case _ => false
  }

  // A handler under its read guard blocks itself for good exactly when it is a Create or Lookup that
  // gets as far as a new handle: its parent resolves, and its object exists or is made, which
  // empties a file. Any other answers.
  lemma BlocksItselfExactly(g: State, t: nat, e: Choice)
    requires t < |g.tasks| && g.tasks[t].pc.Holding? && !Finished(g.tasks[t].locals)
    requires UsesHandle(g.tasks[t].locals.ops[0]) && t in g.handleLock.readers
    ensures Next(g, t, e).Some?
    ensures GetsNewHandle(g.server, g.tasks[t].locals, e) <==> BlockedForever(Next(g, t, e).value, t)
    ensures var g', c := Next(g, t, e).value, g.tasks[t].locals;
      if GetsNewHandle(g.server, c, e) then
        && g'.server == g.server.(disk := g'.server.disk)
        && g'.server.disk ==
             if c.ops[0].Create? && c.ops[0].create.objectType == 1
             then g.server.disk[
               e.createFile(Join(g.server.handles[c.fh.value.data], c.ops[0].create.objectName)).value := []]
             else g.server.disk
      else g'.tasks[t].pc == Finishing(Apply(g.server, c.ops[0], c.fh, e).outcome)
  {
    var g' := Next(g, t, e).value;
    assert GetsNewHandle(g.server, g.tasks[t].locals, e) <==> NewPath(g.server, g.tasks[t].locals, e).Some?;
    if NewPath(g.server, g.tasks[t].locals, e).Some? {
      forall run | Play(g', run).Some? ensures SelfBlocked(Play(g', run).value, t) {
        UpgradeNeverReturns(g', t, run);
      }
    } else {
      assert g'.tasks[t].pc.Finishing?;
      if BlockedForever(g', t) {
        BlockedNow(g', t);
      }
    }
  }
}
