/** What every reachable state of the concurrent server keeps. */
module MachineInvariant {
  import opened Wrappers
  import opened Protocol
  import opened ServerSpec
  import opened Machine

  //---------------------------------------------------------------------------
  // The invariant
  //---------------------------------------------------------------------------

  predicate InHandler(pc: Pc) {
    pc.Holding? || pc.Cloned? || pc.Sought? || pc.Finishing?
  }

  predicate Asks(task: Task, l: LockId, m: Mode) {
    !Finished(task.locals) && LockFor(task.locals) == Some((l, m))
  }

  predicate Holds(task: Task, l: LockId, m: Mode) {
    InHandler(task.pc) && Asks(task, l, m)
  }

  // A lock's guards are exactly those of the handlers under it, and writers exclude everyone else.
  ghost predicate GuardsOk(k: Lock, l: LockId, tasks: seq<Task>) {
    && (forall t: nat :: t in k.readers <==> t < |tasks| && Holds(tasks[t], l, Shared))
    && (k.writer.Some? ==> k.writer.value < |tasks| && Holds(tasks[k.writer.value], l, Exclusive))
    && (forall t :: 0 <= t < |tasks| && Holds(tasks[t], l, Exclusive) ==> k.writer == Some(t))
    && (k.writer.Some? ==> k.readers == {})
  }

  ghost predicate QueuedFor(k: Lock, l: LockId, tasks: seq<Task>, i: nat)
    requires i < |k.queue|
  {
    var w := k.queue[i];
    w.task < |tasks| && tasks[w.task].pc.Waiting? && Asks(tasks[w.task], l, w.mode)
  }

  ghost predicate InQueue(k: Lock, t: nat) {
    exists i :: 0 <= i < |k.queue| && k.queue[i].task == t
  }

  // A lock's queue is exactly the tasks waiting for it, each once.
  ghost predicate QueueOk(k: Lock, l: LockId, tasks: seq<Task>) {
    && (forall i :: 0 <= i < |k.queue| ==> QueuedFor(k, l, tasks, i))
    && (forall i, j :: 0 <= i < j < |k.queue| ==> k.queue[i].task != k.queue[j].task)
    && (forall t, m :: 0 <= t < |tasks| && tasks[t].pc.Waiting? && Asks(tasks[t], l, m) ==> InQueue(k, t))
  }

  ghost predicate LockOk(k: Lock, l: LockId, tasks: seq<Task>) {
    GuardsOk(k, l, tasks) && QueueOk(k, l, tasks)
  }

  predicate OnFile(s: Server, task: Task, file: File) {
    && task.locals.ops != []
    && IsTransfer(task.locals.ops[0])
    && StateidOf(task.locals.ops[0]) in s.stateids
    && s.stateids[StateidOf(task.locals.ops[0])].file == Some(file)
  }

  predicate TaskOk(s: Server, task: Task) {
    && !task.pc.Upgrading?
    && (!task.pc.Ready? && !task.pc.Done? ==> !Finished(task.locals))
    && (task.pc.Waiting? || task.pc.Holding? ==> !Finished(task.locals) && LockFor(task.locals).Some?)
    && (task.pc.Done? ==> Finished(task.locals))
    && (task.pc.Cloned? || task.pc.Sought? ==> OnFile(s, task, task.pc.file))
  }

  // Each open stateid has a cursor of its own.
  ghost predicate CursorsOk(s: Server) {
    && (forall i :: i in s.stateids && s.stateids[i].file.Some? ==> s.stateids[i].file.value.cursor < s.nextCursor)
    && (forall i, j ::
          i in s.stateids && j in s.stateids && i != j && s.stateids[i].file.Some? && s.stateids[j].file.Some?
          ==> s.stateids[i].file.value.cursor != s.stateids[j].file.value.cursor)
  }

  ghost predicate Inv(g: State) {
    && g.server.handles == map[]
    && CursorsOk(g.server)
    && (forall t :: 0 <= t < |g.tasks| ==> TaskOk(g.server, g.tasks[t]))
    && LockOk(g.handleLock, HandleTable, g.tasks)
    && LockOk(g.stateidLock, StateidTable, g.tasks)
  }

  //---------------------------------------------------------------------------
  // How steps keep the locks
  //---------------------------------------------------------------------------

  // A task that neither holds nor waits for a lock, before and after, leaves it alone.
  lemma LockUntouched(k: Lock, l: LockId, tasks: seq<Task>, t: nat, task: Task)
    requires LockOk(k, l, tasks) && t < |tasks|
    requires forall m :: Holds(tasks[t], l, m) <==> Holds(task, l, m)
    requires forall m :: tasks[t].pc.Waiting? && Asks(tasks[t], l, m) <==> task.pc.Waiting? && Asks(task, l, m)
    ensures LockOk(k, l, tasks[t := task])
  {
    var after := tasks[t := task];
    forall i | 0 <= i < |k.queue| ensures QueuedFor(k, l, after, i) {
      assert QueuedFor(k, l, tasks, i);
    }
    forall u, m | 0 <= u < |after| && after[u].pc.Waiting? && Asks(after[u], l, m) ensures InQueue(k, u) {
      assert tasks[u].pc.Waiting? && Asks(tasks[u], l, m);
    }
  }

  lemma LockArrive(k: Lock, l: LockId, tasks: seq<Task>, task: Task)
    requires LockOk(k, l, tasks) && task.pc.Ready?
    ensures LockOk(k, l, tasks + [task])
  {
    var after := tasks + [task];
    forall i | 0 <= i < |k.queue| ensures QueuedFor(k, l, after, i) {
      assert QueuedFor(k, l, tasks, i);
    }
  }

  lemma LockEnqueue(k: Lock, l: LockId, m: Mode, tasks: seq<Task>, t: nat, task: Task)
    requires LockOk(k, l, tasks) && t < |tasks|
    requires tasks[t].pc.Ready? && task.pc.Waiting? && Asks(task, l, m)
    ensures LockOk(Enqueue(k, t, m), l, tasks[t := task])
  {
    var k', after := Enqueue(k, t, m), tasks[t := task];
    forall i | 0 <= i < |k'.queue| ensures QueuedFor(k', l, after, i) {
      assert i < |k.queue| ==> QueuedFor(k, l, tasks, i);
    }
    forall i | 0 <= i < |k.queue| ensures k.queue[i].task != t {
      assert QueuedFor(k, l, tasks, i);
    }
    forall u, n | 0 <= u < |after| && after[u].pc.Waiting? && Asks(after[u], l, n) ensures InQueue(k', u) {
      if u == t {
        assert k'.queue[|k.queue|].task == u;
      } else {
        assert InQueue(k, u);
        var i :| 0 <= i < |k.queue| && k.queue[i].task == u;
        assert k'.queue[i].task == u;
      }
    }
  }

  lemma LockGrant(k: Lock, l: LockId, m: Mode, tasks: seq<Task>, t: nat, task: Task)
    requires LockOk(k, l, tasks) && t < |tasks|
    requires tasks[t].pc.Waiting? && Asks(tasks[t], l, m) && Grantable(k, t, m)
    requires task == tasks[t].(pc := Holding)
    ensures LockOk(Grant(k, t, m), l, tasks[t := task])
  {
    var k', after := Grant(k, t, m), tasks[t := task];
    forall i | 0 <= i < |k'.queue| ensures QueuedFor(k', l, after, i) {
      assert QueuedFor(k, l, tasks, i + 1);
      assert k.queue[0].task != k.queue[i + 1].task;
    }
    forall u, n | 0 <= u < |after| && after[u].pc.Waiting? && Asks(after[u], l, n) ensures InQueue(k', u) {
      assert InQueue(k, u);
      var i :| 0 <= i < |k.queue| && k.queue[i].task == u;
      assert k'.queue[i - 1].task == u;
    }
  }

  lemma LockDrop(k: Lock, l: LockId, tasks: seq<Task>, t: nat, task: Task)
    requires LockOk(k, l, tasks) && t < |tasks|
    requires tasks[t].pc.Finishing? && task.pc.Ready?
    ensures LockOk(Drop(k, t), l, tasks[t := task])
  {
    var k', after := Drop(k, t), tasks[t := task];
    forall i | 0 <= i < |k'.queue| ensures QueuedFor(k', l, after, i) {
      assert QueuedFor(k, l, tasks, i);
    }
    forall u, n | 0 <= u < |after| && after[u].pc.Waiting? && Asks(after[u], l, n) ensures InQueue(k', u) {
      assert InQueue(k, u);
    }
  }

  //---------------------------------------------------------------------------
  // How operations keep the tables
  //---------------------------------------------------------------------------

  lemma OpenTables(s: Server, a: OpenOperation, e: Choice)
    requires CursorsOk(s)
    ensures var s' := ApplyOpen(s, a, e).server;
      s'.handles == s.handles && CursorsOk(s')
  {
  }

  // Only Open and Close change the stateid table, and no operation enters a first handle.
  lemma ApplyTables(s: Server, op: NfsOperation, fh: Option<NfsFileHandle>, e: Choice)
    requires s.handles == map[] && CursorsOk(s)
    ensures var s' := Apply(s, op, fh, e).server;
      && s'.handles == map[] && CursorsOk(s')
      && (!op.Open? && !op.Close? ==> s'.stateids == s.stateids)
  {
    if op.Open? {
      OpenTables(s, op.open, e);
    } else if op.Close? {
      assert CursorsOk(ApplyClose(s, op.close.openStateid).server);
    } else if IsTransfer(op) {
      TransferKeepsTables(s, op, e);
    }
  }

  lemma TransferKeepsTables(s: Server, op: NfsOperation, e: Choice)
    requires IsTransfer(op)
    ensures var s' := ApplyTransfer(s, op, e).server;
      s' == s.(disk := s'.disk)
  {
    if StateidOf(op) in s.stateids && s.stateids[StateidOf(op)].file.Some? {
      TransferTables(s, op, s.stateids[StateidOf(op)].file.value.id, OffsetOf(op), e);
    }
  }

  lemma TransferTables(s: Server, op: NfsOperation, id: FileId, at: nat, e: Choice)
    requires IsTransfer(op)
    ensures var s' := TransferAt(s, op, id, at, e).server;
      s' == s.(disk := s'.disk)
  {
  }

  // A handler under an exclusive guard is alone: no other task is inside a Read or Write.
  lemma WriterIsAlone(g: State, t: nat, u: nat)
    requires Inv(g) && t < |g.tasks| && u < |g.tasks| && t != u
    requires Holds(g.tasks[t], StateidTable, Exclusive)
    ensures !g.tasks[u].pc.Cloned? && !g.tasks[u].pc.Sought?
  {
    assert TaskOk(g.server, g.tasks[u]);
    assert g.stateidLock.writer == Some(t);
    assert u !in g.stateidLock.readers;
    assert !Holds(g.tasks[u], StateidTable, Shared);
  }

  lemma EffectKeeps(g: State, t: nat, e: Choice)
    requires Inv(g) && t < |g.tasks| && !Finished(g.tasks[t].locals)
    requires if LockFor(g.tasks[t].locals).None? then g.tasks[t].pc.Ready? else InHandler(g.tasks[t].pc)
    ensures Inv(TakeEffect(g, t, e))
  {
    var c := g.tasks[t].locals;
    var s := Apply(g.server, c.ops[0], c.fh, e).server;
    var g' := TakeEffect(g, t, e);
    ApplyTables(g.server, c.ops[0], c.fh, e);
    forall u | 0 <= u < |g.tasks| ensures TaskOk(s, g'.tasks[u]) {
      assert TaskOk(g.server, g.tasks[u]);
      if u != t && (c.ops[0].Open? || c.ops[0].Close?) {
        WriterIsAlone(g, t, u);
      }
    }
    LockUntouched(g.handleLock, HandleTable, g.tasks, t, g'.tasks[t]);
    LockUntouched(g.stateidLock, StateidTable, g.tasks, t, g'.tasks[t]);
  }

  // A step inside a handler that leaves the tables alone.
  lemma InsideKeeps(g: State, t: nat, g': State)
    requires Inv(g) && t < |g.tasks| && InHandler(g.tasks[t].pc)
    requires t < |g'.tasks| && InHandler(g'.tasks[t].pc)
    requires g' == At(g.(server := g'.server, cursors := g'.cursors), t, g'.tasks[t].pc)
    requires g'.server == g.server.(disk := g'.server.disk)
    requires TaskOk(g'.server, g'.tasks[t])
    ensures Inv(g')
  {
    forall u | 0 <= u < |g.tasks| ensures TaskOk(g'.server, g'.tasks[u]) {
      assert TaskOk(g.server, g.tasks[u]);
    }
    LockUntouched(g.handleLock, HandleTable, g.tasks, t, g'.tasks[t]);
    LockUntouched(g.stateidLock, StateidTable, g.tasks, t, g'.tasks[t]);
  }

  //---------------------------------------------------------------------------
  // Every step, every run
  //---------------------------------------------------------------------------

  lemma TasksStillOk(g: State, t: nat, e: Choice)
    requires Inv(g) && t < |g.tasks| && Next(g, t, e).Some?
    requires Next(g, t, e).value.server == g.server && TaskOk(g.server, Next(g, t, e).value.tasks[t])
    requires Next(g, t, e).value.tasks == g.tasks[t := Next(g, t, e).value.tasks[t]]
    ensures forall u :: 0 <= u < |g.tasks| ==> TaskOk(g.server, Next(g, t, e).value.tasks[u])
  {
    forall u | 0 <= u < |g.tasks| ensures TaskOk(g.server, Next(g, t, e).value.tasks[u]) {
      assert TaskOk(g.server, g.tasks[u]);
    }
  }

  lemma FinishingKeeps(g: State, t: nat, e: Choice)
    requires Inv(g) && t < |g.tasks| && g.tasks[t].pc.Finishing?
    requires Next(g, t, e).Some?
    ensures Inv(Next(g, t, e).value)
  {
    var g' := Next(g, t, e).value;
    assert TaskOk(g.server, g.tasks[t]);
    TasksStillOk(g, t, e);
    LockDrop(g.handleLock, HandleTable, g.tasks, t, g'.tasks[t]);
    LockDrop(g.stateidLock, StateidTable, g.tasks, t, g'.tasks[t]);
  }

  lemma DoneKeeps(g: State, t: nat, e: Choice)
    requires Inv(g) && t < |g.tasks| && g.tasks[t].pc.Ready? && Finished(g.tasks[t].locals)
    ensures Inv(Next(g, t, e).value)
  {
    var g' := Next(g, t, e).value;
    TasksStillOk(g, t, e);
    LockUntouched(g.handleLock, HandleTable, g.tasks, t, g'.tasks[t]);
    LockUntouched(g.stateidLock, StateidTable, g.tasks, t, g'.tasks[t]);
  }

  lemma LockingKeeps(g: State, t: nat, e: Choice)
    requires Inv(g) && t < |g.tasks| && Next(g, t, e).Some? && !Finished(g.tasks[t].locals)
    requires g.tasks[t].pc.Waiting? || (g.tasks[t].pc.Ready? && LockFor(g.tasks[t].locals).Some?)
    ensures Inv(Next(g, t, e).value)
  {
    var g' := Next(g, t, e).value;
    var (l, m) := LockFor(g.tasks[t].locals).value;
    var other := if l == HandleTable then StateidTable else HandleTable;
    TasksStillOk(g, t, e);
    assert Asks(g.tasks[t], l, m);
    LockUntouched(LockOf(g, other), other, g.tasks, t, g'.tasks[t]);
    if g.tasks[t].pc.Ready? {
      LockEnqueue(LockOf(g, l), l, m, g.tasks, t, g'.tasks[t]);
    } else {
      LockGrant(LockOf(g, l), l, m, g.tasks, t, g'.tasks[t]);
    }
  }

  lemma StepKeeps(g: State, t: nat, e: Choice)
    requires Inv(g) && t < |g.tasks| && Next(g, t, e).Some?
    ensures Inv(Next(g, t, e).value)
  {
    var g', c := Next(g, t, e).value, g.tasks[t].locals;
    assert TaskOk(g.server, g.tasks[t]);
    match g.tasks[t].pc {
      case Ready =>
        if Finished(c) {
          DoneKeeps(g, t, e);
        } else if LockFor(c).Some? {
          LockingKeeps(g, t, e);
        } else {
          EffectKeeps(g, t, e);
        }
      case Waiting => LockingKeeps(g, t, e);
      case Finishing(_) => FinishingKeeps(g, t, e);
      case Holding =>
        if g'.tasks[t].pc.Cloned? {
          InsideKeeps(g, t, g');
        } else {
          EffectKeeps(g, t, e);
        }
      case Cloned(_) =>
        if e.sought {
          InsideKeeps(g, t, g');
        } else {
          EffectKeeps(g, t, e.(cloned := true));
        }
      case Sought(file) =>
        TransferTables(g.server, c.ops[0], file.id, CursorOf(g, file), e);
        InsideKeeps(g, t, g');
    }
  }

  lemma PerformKeeps(g: State, a: Action)
    requires Inv(g) && Perform(g, a).Some?
    ensures Inv(Perform(g, a).value)
  {
    match a {
      case Go(t, e) => StepKeeps(g, t, e);
      case Arrive(ops) =>
        LockArrive(g.handleLock, HandleTable, g.tasks, Task(Begin(ops), Ready));
        LockArrive(g.stateidLock, StateidTable, g.tasks, Task(Begin(ops), Ready));
    }
  }

  lemma {:induction false} PlayKeeps(g: State, run: seq<Action>)
    requires Inv(g) && Play(g, run).Some?
    ensures Inv(Play(g, run).value)
    decreases |run|
  {
    if run != [] {
      PerformKeeps(g, run[0]);
      PlayKeeps(Perform(g, run[0]).value, run[1..]);
    }
  }

  lemma ReachableInv(root: Path, disk: Disk, run: seq<Action>)
    requires Play(Start(root, disk), run).Some?
    ensures Inv(Play(Start(root, disk), run).value)
  {
    PlayKeeps(Start(root, disk), run);
  }
}
