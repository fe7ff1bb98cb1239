/**
 What every run of the concurrent server says about its tables and replies,
 with no condition on how reads and writes overlap: the tables are those of the
 operations in the order they took effect, stateids and filehandles answer
 accordingly, and each compound runs its own operations from the front.
 */
module MachineHistory {
  import opened Wrappers
  import opened Sequences
  import opened Protocol
  import opened ServerSpec
  import opened Machine
  import opened MachineInvariant
  import opened MachineRefinement
  import CompoundLaws
  import FileHistory
  import MachineProgress

  //---------------------------------------------------------------------------
  // Tables
  //---------------------------------------------------------------------------

  // Equal but for file contents.
  predicate SameTables(s: Server, s': Server) {
    s' == s.(disk := s'.disk)
  }

  // What operations do to the tables does not depend on file contents, nor does BadStateid.
  lemma ApplySameTables(s: Server, s': Server, op: NfsOperation, fh: Option<NfsFileHandle>, e: Choice)
    requires s.handles == map[] && SameTables(s, s')
    ensures SameTables(Apply(s, op, fh, e).server, Apply(s', op, fh, e).server)
    ensures Apply(s, op, fh, e).outcome == Fail(BadStateid) <==> Apply(s', op, fh, e).outcome == Fail(BadStateid)
  {
    if IsTransfer(op) {
      TransferSameTables(s, s', op, e);
    } else if op.Open? {
      OpenSameTables(s, s', op.open, e);
    }
  }

  lemma TransferSameTables(s: Server, s': Server, op: NfsOperation, e: Choice)
    requires IsTransfer(op) && SameTables(s, s')
    ensures SameTables(ApplyTransfer(s, op, e).server, ApplyTransfer(s', op, e).server)
    ensures ApplyTransfer(s, op, e).outcome == Fail(BadStateid)
      <==> ApplyTransfer(s', op, e).outcome == Fail(BadStateid)
  {
  }

  lemma OpenSameTables(s: Server, s': Server, a: OpenOperation, e: Choice)
    requires SameTables(s, s')
    ensures SameTables(ApplyOpen(s, a, e).server, ApplyOpen(s', a, e).server)
    ensures ApplyOpen(s, a, e).outcome == ApplyOpen(s', a, e).outcome
  {
  }

  // A step that decides an operation changes the tables as the whole operation does, wherever a
  // transfer finds its cursor.
  lemma DecisionTables(g: State, t: nat, e: Choice)
    requires Inv(g) && t < |g.tasks| && Decides(g, t, e)
    ensures var g', c := Next(g, t, e).value, g.tasks[t].locals;
      && !Finished(c)
      && var whole := Apply(g.server, c.ops[0], c.fh, Settled(g.tasks[t].pc, e));
      && SameTables(whole.server, g'.server)
      && (g'.tasks[t].pc.outcome == Fail(BadStateid) <==> whole.outcome == Fail(BadStateid))
  {
    assert TaskOk(g.server, g.tasks[t]);
    if g.tasks[t].pc.Sought? {
      TransferNowTables(g, t, e);
    } else {
      DecisionIsApply(g, t, e);
    }
  }

  lemma TransferNowTables(g: State, t: nat, e: Choice)
    requires Inv(g) && t < |g.tasks| && g.tasks[t].pc.Sought?
    ensures var g', c := Next(g, t, e).value, g.tasks[t].locals;
      var whole := Apply(g.server, c.ops[0], c.fh, e.(cloned := true, sought := true));
      && SameTables(whole.server, g'.server)
      && g'.tasks[t].pc.outcome != Fail(BadStateid) && whole.outcome != Fail(BadStateid)
  {
    assert TaskOk(g.server, g.tasks[t]);
    var op, file := g.tasks[t].locals.ops[0], g.tasks[t].pc.file;
    TransferTables(g.server, op, file.id, CursorOf(g, file), e);
    TransferTables(g.server, op, file.id, OffsetOf(op), e);
  }

  lemma StepTables(g: State, a: Action, s: Server)
    requires Inv(g) && Perform(g, a).Some? && SameTables(g.server, s)
    ensures SameTables(Perform(g, a).value.server, Run(s, EventsIn(LogStep(g, a))))
  {
    if a.Go? && Decides(g, a.task, a.choice) {
      DecisionTables(g, a.task, a.choice);
      var c := g.tasks[a.task].locals;
      var ev := Event(c.ops[0], c.fh, Settled(g.tasks[a.task].pc, a.choice));
      ApplySameTables(g.server, s, ev.op, ev.fh, ev.choice);
      assert EventsIn([Runs(a.task, ev)]) == [ev];
      assert [ev][..0] == [];
      assert Run(s, [ev]) == After(s, ev);
    } else if a.Go? {
      QuietStep(g, a.task, a.choice);
    }
  }

  lemma {:induction false} EventsJoin(a: seq<Atom>, b: seq<Atom>)
    ensures EventsIn(a + b) == EventsIn(a) + EventsIn(b)
  {
    if a == [] {
      assert a + b == b;
    } else {
      TailOfSum(a, b);
      EventsJoin(a[1..], b);
      Associative(if a[0].Runs? then [a[0].event] else [], EventsIn(a[1..]), EventsIn(b));
    }
  }

  lemma {:induction false} RunJoin(s: Server, a: seq<Event>, b: seq<Event>)
    ensures Run(s, a + b) == Run(Run(s, a), b)
    decreases |b|
  {
    if b == [] {
      assert a + b == a;
    } else {
      var n := |b| - 1;
      FrontOfSum(a, b);
      RunJoin(s, a, b[..n]);
    }
  }

  lemma {:induction false} RunTables(g: State, run: seq<Action>, s: Server)
    requires Inv(g) && Play(g, run).Some? && SameTables(g.server, s)
    ensures SameTables(Play(g, run).value.server, Run(s, EventsIn(Log(g, run))))
    decreases |run|
  {
    if run != [] {
      var g', first := Perform(g, run[0]).value, LogStep(g, run[0]);
      StepTables(g, run[0], s);
      PerformKeeps(g, run[0]);
      RunTables(g', run[1..], Run(s, EventsIn(first)));
      EventsJoin(first, Log(g', run[1..]));
      RunJoin(s, EventsIn(first), EventsIn(Log(g', run[1..])));
    }
  }

  // The operations of a run of a fresh server, in the order in which they took effect.
  function History(root: Path, disk: Disk, run: seq<Action>): seq<Event> {
    EventsIn(Log(Start(root, disk), run))
  }

  // In every reachable state of the concurrent server a stateid is in the table exactly when some
  // Open entered it and no later Close removed it, and it stands for what its last Open got.
  lemma TableOfEveryRun(root: Path, disk: Disk, run: seq<Action>, id: StateId)
    requires Play(Start(root, disk), run).Some?
    ensures var s, events := Play(Start(root, disk), run).value.server, History(root, disk, run);
      && FileHistory.Binding(root, events, id) == (if id in s.stateids then Some(s.stateids[id]) else None)
      && (id in s.stateids <==> exists i: nat :: FileHistory.OpenSince(root, events, id, i))
  {
    var events := History(root, disk, run);
    RunTables(Start(root, disk), run, Fresh(root, disk));
    FileHistory.TableIsBinding(root, disk, events, id);
    FileHistory.BindingLive(root, events, id);
  }

  // In every run an operation takes effect only under its guard.
  lemma EffectUnderGuard(root: Path, disk: Disk, run: seq<Action>, t: nat, e: Choice)
    requires Play(Start(root, disk), run).Some?
    requires var g := Play(Start(root, disk), run).value;
      t < |g.tasks| && Decides(g, t, e)
    ensures var g := Play(Start(root, disk), run).value;
      var c, ids, handles := g.tasks[t].locals, g.stateidLock, g.handleLock;
      && c.ops != []
      && var op := c.ops[0];
      && (op.Open? || op.Close? ==> ids.writer == Some(t) && ids.readers == {})
      && (op.Read? || op.Write? ==> ids.writer == None && t in ids.readers)
      && (c.fh.Some? && (op.Access? || op.Commit? || op.Create? || op.GetAttr? || op.Lookup?) ==>
            handles.writer == None && t in handles.readers)
  {
    ReachableInv(root, disk, run);
    var g := Play(Start(root, disk), run).value;
    assert TaskOk(g.server, g.tasks[t]);
    DecidesInHandler(g, t, e);
    if InHandler(g.tasks[t].pc) {
      MachineProgress.GuardsHeld(root, disk, run, t);
    }
  }

  lemma DecidesInHandler(g: State, t: nat, e: Choice)
    requires Inv(g) && t < |g.tasks| && Decides(g, t, e)
    ensures !Finished(g.tasks[t].locals)
    ensures InHandler(g.tasks[t].pc) || LockFor(g.tasks[t].locals).None?
  {
    assert TaskOk(g.server, g.tasks[t]);
  }

  // In every run a Read, Write or Close is answered BadStateid exactly when its stateid is not
  // open at the step that decides it.
  lemma BadStateidInEveryRun(root: Path, disk: Disk, run: seq<Action>, t: nat, e: Choice, id: StateId)
    requires Play(Start(root, disk), run).Some?
    requires var g := Play(Start(root, disk), run).value;
      && t < |g.tasks| && Decides(g, t, e) && g.tasks[t].locals.ops != []
      && var op := g.tasks[t].locals.ops[0];
      (IsTransfer(op) && StateidOf(op) == id) || (op.Close? && op.close.openStateid == id)
    ensures var g := Play(Start(root, disk), run).value;
      (Next(g, t, e).value.tasks[t].pc.outcome == Fail(BadStateid))
      <==> !exists i: nat :: FileHistory.OpenSince(root, History(root, disk, run), id, i)
  {
    var g, events := Play(Start(root, disk), run).value, History(root, disk, run);
    var c := g.tasks[t].locals;
    var ev := Event(c.ops[0], c.fh, Settled(g.tasks[t].pc, e));
    ReachableInv(root, disk, run);
    DecisionTables(g, t, e);
    RunTables(Start(root, disk), run, Fresh(root, disk));
    ApplySameTables(g.server, Run(Fresh(root, disk), events), ev.op, ev.fh, ev.choice);
    FileHistory.BadStateidExactly(root, disk, events, ev, id);
  }

  //---------------------------------------------------------------------------
  // Each compound in progress and the operations it arrived with
  //---------------------------------------------------------------------------

  function Arrived(a: Action): seq<seq<NfsOperation>> {
    if a.Arrive? then [a.ops] else []
  }

  // The compounds of a run, in order of arrival, so that the t-th is the t-th task's.
  function Arrivals(run: seq<Action>): seq<seq<NfsOperation>> {
    if run == [] then [] else Arrived(run[0]) + Arrivals(run[1..])
  }

  lemma ArrivalsJoin(run: seq<Action>, before: seq<seq<NfsOperation>>)
    requires run != []
    ensures before + Arrived(run[0]) + Arrivals(run[1..]) == before + Arrivals(run)
  {
    Associative(before, Arrived(run[0]), Arrivals(run[1..]));
  }

  // The reply of the i-th operation if it needs a filehandle that resolves.
  function Unresolved(all: seq<NfsOperation>, i: nat): OperationResult
    requires i <= |all|
  {
    OperationResult(if CompoundLaws.GetFhBefore(all, i) then StaleFileHandle else BadHandle, None)
  }

  // A compound runs the operations it arrived with from the front, one result for each.
  ghost predicate RunsFrom(c: Compound, all: seq<NfsOperation>) {
    && |c.results| + |c.ops| == |all| && c.ops == all[|c.results|..]
    && (c.fh.Some? <==> CompoundLaws.GetFhBefore(all, |c.results|))
    && forall i :: 0 <= i < |c.results| && UsesHandle(all[i]) ==> c.results[i] == Unresolved(all, i)
  }

  // An outcome a server without handles can give.
  predicate HandlelessOutcome(c: Compound, o: Outcome)
    requires c.ops != []
  {
    && (UsesHandle(c.ops[0]) ==> o == Fail(if c.fh.Some? then StaleFileHandle else BadHandle))
    && (c.ops[0].GetFh? && o.Answer? ==> o.result.result.Some? && o.result.result.value.GetFhData?)
  }

  ghost predicate TaskRunsFrom(task: Task, all: seq<NfsOperation>) {
    && RunsFrom(task.locals, all)
    && (task.pc.Finishing? ==> task.locals.ops != [] && HandlelessOutcome(task.locals, task.pc.outcome))
  }

  ghost predicate RunArrivals(g: State, arrivals: seq<seq<NfsOperation>>) {
    |arrivals| == |g.tasks| && forall t :: 0 <= t < |g.tasks| ==> TaskRunsFrom(g.tasks[t], arrivals[t])
  }

  lemma AdvanceRunsFrom(c: Compound, o: Outcome, all: seq<NfsOperation>)
    requires RunsFrom(c, all) && c.ops != [] && HandlelessOutcome(c, o)
    ensures RunsFrom(Advance(c, o), all)
  {
    if o.Answer? {
      var n, next := |c.results|, Advance(c, o);
      assert all[n] == c.ops[0];
      assert CompoundLaws.GetFhBefore(all, n + 1) <==> CompoundLaws.GetFhBefore(all, n) || all[n].GetFh?;
      assert next.fh.Some? <==> c.fh.Some? || c.ops[0].GetFh?;
    }
  }

  lemma DecidedOutcome(g: State, t: nat, e: Choice)
    requires Inv(g) && t < |g.tasks| && Decides(g, t, e)
    ensures !Finished(g.tasks[t].locals)
    ensures Next(g, t, e).value.tasks[t].locals == g.tasks[t].locals
    ensures HandlelessOutcome(g.tasks[t].locals, Next(g, t, e).value.tasks[t].pc.outcome)
  {
    assert TaskOk(g.server, g.tasks[t]);
    if !g.tasks[t].pc.Sought? {
      DecisionIsApply(g, t, e);
    }
  }

  lemma StepRunsFrom(g: State, t: nat, e: Choice, all: seq<NfsOperation>)
    requires Inv(g) && t < |g.tasks| && Next(g, t, e).Some? && TaskRunsFrom(g.tasks[t], all)
    ensures TaskRunsFrom(Next(g, t, e).value.tasks[t], all)
  {
    assert TaskOk(g.server, g.tasks[t]);
    if Decides(g, t, e) {
      DecidedOutcome(g, t, e);
    } else {
      QuietStep(g, t, e);
      if g.tasks[t].pc.Finishing? {
        AdvanceRunsFrom(g.tasks[t].locals, g.tasks[t].pc.outcome, all);
      }
    }
  }

  lemma PerformRunsArrivals(g: State, a: Action, arrivals: seq<seq<NfsOperation>>)
    requires Inv(g) && Perform(g, a).Some? && RunArrivals(g, arrivals)
    ensures RunArrivals(Perform(g, a).value, arrivals + Arrived(a))
  {
    match a
    case Arrive(ops) =>
      assert RunsFrom(Begin(ops), ops);
    case Go(t, e) =>
      assert arrivals + [] == arrivals;
      CursorStep(g, t, e);
      StepRunsFrom(g, t, e, arrivals[t]);
  }

  lemma {:induction false} RunKeepsArrivals(g: State, run: seq<Action>, arrivals: seq<seq<NfsOperation>>)
    requires Inv(g) && Play(g, run).Some? && RunArrivals(g, arrivals)
    ensures RunArrivals(Play(g, run).value, arrivals + Arrivals(run))
    decreases |run|
  {
    if run == [] {
      assert arrivals + [] == arrivals;
    } else {
      PerformRunsArrivals(g, run[0], arrivals);
      PerformKeeps(g, run[0]);
      RunKeepsArrivals(Perform(g, run[0]).value, run[1..], arrivals + Arrived(run[0]));
      ArrivalsJoin(run, arrivals);
    }
  }

  // In every run, Access, Commit, Create, GetAttr and Lookup answer BadHandle before the first
  // GetFh of their own compound and StaleFileHandle after it.
  lemma RepliesInEveryRun(root: Path, disk: Disk, run: seq<Action>, t: nat, i: nat)
    requires Play(Start(root, disk), run).Some?
    requires var g := Play(Start(root, disk), run).value;
      t < |g.tasks| && i < |g.tasks[t].locals.results|
    ensures |Arrivals(run)| == |Play(Start(root, disk), run).value.tasks|
    ensures var c, ops := Play(Start(root, disk), run).value.tasks[t].locals, Arrivals(run)[t];
      && |c.results| <= |ops|
      && (UsesHandle(ops[i]) ==>
            c.results[i] == OperationResult(
              if exists j :: 0 <= j < i && ops[j].GetFh? then StaleFileHandle else BadHandle, None))
  {
    TasksOfEveryRun(root, disk, run);
    var c, ops := Play(Start(root, disk), run).value.tasks[t].locals, Arrivals(run)[t];
    assert RunsFrom(c, ops);
  }

  // In every run each task runs the operations of its own arrival.
  lemma TasksOfEveryRun(root: Path, disk: Disk, run: seq<Action>)
    requires Play(Start(root, disk), run).Some?
    ensures RunArrivals(Play(Start(root, disk), run).value, Arrivals(run))
    ensures forall t :: 0 <= t < |Arrivals(run)| ==>
      RunsFrom(Play(Start(root, disk), run).value.tasks[t].locals, Arrivals(run)[t])
  {
    RunKeepsArrivals(Start(root, disk), run, []);
    assert [] + Arrivals(run) == Arrivals(run);
    var g := Play(Start(root, disk), run).value;
    forall t | 0 <= t < |Arrivals(run)| ensures RunsFrom(g.tasks[t].locals, Arrivals(run)[t]) {
      assert TaskRunsFrom(g.tasks[t], Arrivals(run)[t]);
    }
  }

  //---------------------------------------------------------------------------
  // When the condition of the refinement is met
  //---------------------------------------------------------------------------

  predicate InFlight(pc: Pc) {
    !pc.Ready? && !pc.Done?
  }

  // No two Reads or Writes on one stateid are in flight together.
  predicate TransfersApart(g: State) {
    forall t, u :: 0 <= t < |g.tasks| && 0 <= u < |g.tasks| && t != u
      && InFlight(g.tasks[t].pc) && InFlight(g.tasks[u].pc)
      && g.tasks[t].locals.ops != [] && g.tasks[u].locals.ops != []
      && IsTransfer(g.tasks[t].locals.ops[0]) && IsTransfer(g.tasks[u].locals.ops[0])
      ==> StateidOf(g.tasks[t].locals.ops[0]) != StateidOf(g.tasks[u].locals.ops[0])
  }

  predicate TransfersApartRun(g: State, run: seq<Action>)
    decreases |run|
  {
    && TransfersApart(g)
    && (run != [] && Perform(g, run[0]).Some? ==> TransfersApartRun(Perform(g, run[0]).value, run[1..]))
  }

  // Keeping apart what is in flight is enough.
  lemma {:induction false} ApartIsUndisturbed(g: State, run: seq<Action>)
    requires TransfersApartRun(g, run)
    ensures UndisturbedRun(g, run)
    decreases |run|
  {
    if run != [] && Perform(g, run[0]).Some? {
      ApartIsUndisturbed(Perform(g, run[0]).value, run[1..]);
    }
  }

  // No stateid is read or written by two of the compounds.
  predicate DisjointStateids(arrivals: seq<seq<NfsOperation>>) {
    forall t, u, i, j ::
      0 <= t < |arrivals| && 0 <= u < |arrivals| && t != u && 0 <= i < |arrivals[t]| && 0 <= j < |arrivals[u]|
      && IsTransfer(arrivals[t][i]) && IsTransfer(arrivals[u][j])
      ==> StateidOf(arrivals[t][i]) != StateidOf(arrivals[u][j])
  }

  lemma DisjointIsApart(g: State, arrivals: seq<seq<NfsOperation>>)
    requires RunArrivals(g, arrivals) && DisjointStateids(arrivals)
    ensures TransfersApart(g)
  {
    forall t, u | 0 <= t < |g.tasks| && 0 <= u < |g.tasks| && t != u
      && g.tasks[t].locals.ops != [] && g.tasks[u].locals.ops != []
      && IsTransfer(g.tasks[t].locals.ops[0]) && IsTransfer(g.tasks[u].locals.ops[0])
      ensures StateidOf(g.tasks[t].locals.ops[0]) != StateidOf(g.tasks[u].locals.ops[0])
    {
      assert TaskRunsFrom(g.tasks[t], arrivals[t]) && TaskRunsFrom(g.tasks[u], arrivals[u]);
      assert g.tasks[t].locals.ops[0] == arrivals[t][|g.tasks[t].locals.results|];
      assert g.tasks[u].locals.ops[0] == arrivals[u][|g.tasks[u].locals.results|];
    }
  }

  lemma {:induction false} DisjointRun(g: State, run: seq<Action>, arrivals: seq<seq<NfsOperation>>)
    requires Inv(g) && RunArrivals(g, arrivals) && DisjointStateids(arrivals + Arrivals(run))
    ensures TransfersApartRun(g, run)
    decreases |run|
  {
    DisjointIsApart(g, arrivals) by {
      FewerDisjoint(arrivals, Arrivals(run));
    }
    if run != [] && Perform(g, run[0]).Some? {
      PerformRunsArrivals(g, run[0], arrivals);
      PerformKeeps(g, run[0]);
      ArrivalsJoin(run, arrivals);
      DisjointRun(Perform(g, run[0]).value, run[1..], arrivals + Arrived(run[0]));
    }
  }

  lemma FewerDisjoint(a: seq<seq<NfsOperation>>, b: seq<seq<NfsOperation>>)
    requires DisjointStateids(a + b)
    ensures DisjointStateids(a)
  {
    forall t, u, i, j |
      0 <= t < |a| && 0 <= u < |a| && t != u && 0 <= i < |a[t]| && 0 <= j < |a[u]|
      && IsTransfer(a[t][i]) && IsTransfer(a[u][j])
      ensures StateidOf(a[t][i]) != StateidOf(a[u][j])
    {
      assert (a + b)[t] == a[t] && (a + b)[u] == a[u];
    }
  }

  // So clients that do not share stateids between compounds always get a sequential server.
  lemma SerializableByStateid(root: Path, disk: Disk, run: seq<Action>)
    requires Play(Start(root, disk), run).Some? && DisjointStateids(Arrivals(run))
    ensures var g, log := Play(Start(root, disk), run).value, Log(Start(root, disk), run);
      && SerialRun(Serial(Fresh(root, disk), []), log).Some?
      && var a := SerialRun(Serial(Fresh(root, disk), []), log).value;
      && a.server == g.server
      && |a.compounds| == |g.tasks|
      && forall t :: 0 <= t < |g.tasks| && g.tasks[t].pc.Done? ==> a.compounds[t] == g.tasks[t].locals
  {
    assert [] + Arrivals(run) == Arrivals(run);
    DisjointRun(Start(root, disk), run, []);
    ApartIsUndisturbed(Start(root, disk), run);
    Serializable(root, disk, run);
  }
}
