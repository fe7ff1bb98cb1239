/**
 The concurrent server refines a sequential one: with one task at a time
 between a seek and its transfer on each stateid, every run has the effect and
 the replies of its operations run whole, one after another, in the order in
 which they took effect - for Read and Write, the order of their transfers.
 */
module MachineRefinement {
  import opened Wrappers
  import opened Sequences
  import opened Protocol
  import opened ServerSpec
  import opened Machine
  import opened MachineInvariant
  import CompoundLaws
  import FileHistory

  //---------------------------------------------------------------------------
  // The sequential server
  //---------------------------------------------------------------------------

  // The tables and files, and how far each compound is.
  datatype Serial = Serial(server: Server, compounds: seq<Compound>)

  datatype Atom = Begins(ops: seq<NfsOperation>) | Runs(task: nat, event: Event)

  // An operation runs whole; it has to be the next one of its compound.
  function SerialStep(a: Serial, x: Atom): Option<Serial> {
    match x
    case Begins(ops) => Some(a.(compounds := a.compounds + [Begin(ops)]))
    case Runs(t, ev) =>
      if t >= |a.compounds| || Finished(a.compounds[t])
         || a.compounds[t].ops[0] != ev.op || a.compounds[t].fh != ev.fh then None
      else
        var step := Apply(a.server, ev.op, ev.fh, ev.choice);
        Some(Serial(step.server, a.compounds[t := Advance(a.compounds[t], step.outcome)]))
  }

  function SerialRun(a: Serial, log: seq<Atom>): Option<Serial>
    decreases |log|
  {
    if log == [] then Some(a)
    else
      match SerialStep(a, log[0])
      case None => None
      case Some(a') => SerialRun(a', log[1..])
  }

  // The operations of a log, in order.
  function EventsIn(log: seq<Atom>): seq<Event> {
    if log == [] then []
    else (if log[0].Runs? then [log[0].event] else []) + EventsIn(log[1..])
  }

  //---------------------------------------------------------------------------
  // What a concurrent state stands for, and when its operations take effect
  //---------------------------------------------------------------------------

  function Progress(task: Task): Compound {
    if task.pc.Finishing? && task.locals.ops != [] then Advance(task.locals, task.pc.outcome) else task.locals
  }

  function Progresses(tasks: seq<Task>): (cs: seq<Compound>)
    ensures |cs| == |tasks| && forall t :: 0 <= t < |tasks| ==> cs[t] == Progress(tasks[t])
  {
    seq(|tasks|, t requires 0 <= t < |tasks| => Progress(tasks[t]))
  }

  function Abs(g: State): Serial {
    Serial(g.server, Progresses(g.tasks))
  }

  // The steps at which an operation takes effect are those that decide its outcome.
  predicate Decides(g: State, t: nat, e: Choice)
    requires t < |g.tasks|
  {
    Next(g, t, e).Some? && !g.tasks[t].pc.Finishing? && Next(g, t, e).value.tasks[t].pc.Finishing?
  }

  // The choices an operation that has come this far has already made.
  function Settled(pc: Pc, e: Choice): Choice {
    if pc.Cloned? then e.(cloned := true) else if pc.Sought? then e.(cloned := true, sought := true) else e
  }

  function LogStep(g: State, a: Action): seq<Atom> {
    match a
    case Arrive(ops) => [Begins(ops)]
    case Go(t, e) =>
      if t < |g.tasks| && Decides(g, t, e) && g.tasks[t].locals.ops != [] then
        var c := g.tasks[t].locals;
        [Runs(t, Event(c.ops[0], c.fh, Settled(g.tasks[t].pc, e)))]
      else []
  }

  function Log(g: State, run: seq<Action>): seq<Atom>
    decreases |run|
  {
    if run == [] || Perform(g, run[0]).None? then []
    else LogStep(g, run[0]) + Log(Perform(g, run[0]).value, run[1..])
  }

  //---------------------------------------------------------------------------
  // Cursors in place
  //---------------------------------------------------------------------------

  // No two tasks are between seek and transfer on one stateid.
  ghost predicate Undisturbed(g: State) {
    forall t, u :: 0 <= t < |g.tasks| && 0 <= u < |g.tasks| && t != u
      && g.tasks[t].pc.Sought? && g.tasks[u].pc.Sought?
      && OnFile(g.server, g.tasks[t], g.tasks[t].pc.file) && OnFile(g.server, g.tasks[u], g.tasks[u].pc.file)
      ==> StateidOf(g.tasks[t].locals.ops[0]) != StateidOf(g.tasks[u].locals.ops[0])
  }

  ghost predicate UndisturbedRun(g: State, run: seq<Action>)
    decreases |run|
  {
    Undisturbed(g) && (run != [] && Perform(g, run[0]).Some? ==> UndisturbedRun(Perform(g, run[0]).value, run[1..]))
  }

  // A task about to transfer finds the cursor at its own offset.
  predicate InPlace(g: State, t: nat)
    requires t < |g.tasks|
  {
    (g.tasks[t].pc.Sought? && OnFile(g.server, g.tasks[t], g.tasks[t].pc.file))
    ==> CursorOf(g, g.tasks[t].pc.file) == OffsetOf(g.tasks[t].locals.ops[0])
  }

  ghost predicate Placed(g: State) {
    forall t :: 0 <= t < |g.tasks| ==> InPlace(g, t)
  }

  predicate OffCursor(pc: Pc, file: File) {
    !pc.Sought? || pc.file.cursor != file.cursor
  }

  // What a step does to cursors: a seek places its own, a transfer moves its own, nothing else does.
  lemma CursorStep(g: State, t: nat, e: Choice)
    requires Inv(g) && t < |g.tasks| && Next(g, t, e).Some?
    ensures var g', pc := Next(g, t, e).value, g.tasks[t].pc;
      && g'.tasks == g.tasks[t := g'.tasks[t]]
      && (g'.tasks[t].pc.Sought? ==>
            g'.server == g.server && g'.tasks[t].locals == g.tasks[t].locals
            && CursorOf(g', g'.tasks[t].pc.file) == OffsetOf(g.tasks[t].locals.ops[0]))
      && (forall file :: OffCursor(pc, file) && OffCursor(g'.tasks[t].pc, file)
            ==> CursorOf(g', file) == CursorOf(g, file))
  {
    assert TaskOk(g.server, g.tasks[t]);
    match g.tasks[t].pc {
      case Ready =>
      case Waiting =>
      case Finishing(_) =>
      case Holding =>
      case Cloned(_) =>
      case Sought(_) =>
    }
  }

  // A transfer happens at the cursor and leaves it behind the bytes it moved: those a Read answers,
  // and those of a Write that reached the file.
  lemma TransferMovesCursor(g: State, t: nat, e: Choice)
    requires t < |g.tasks| && g.tasks[t].pc.Sought? && !Finished(g.tasks[t].locals)
    requires IsTransfer(g.tasks[t].locals.ops[0])
    ensures Next(g, t, e).Some? && Next(g, t, e).value.tasks[t].pc.Finishing?
    ensures var g', op, file := Next(g, t, e).value, g.tasks[t].locals.ops[0], g.tasks[t].pc.file;
      var o := g'.tasks[t].pc.outcome;
      && Step(g'.server, o) == TransferAt(g.server, op, file.id, CursorOf(g, file), e)
      && CursorOf(g', file) == CursorOf(g, file) +
           match op
           case Read(_) =>
             if o.Answer? && o.result.result.Some? && o.result.result.value.ReadData?
             then |o.result.result.value.bytes| else 0
           case Write(a) =>
             if e.transfer.Moved? || e.transfer.n > |a.data| then |a.data| else e.transfer.n
  {
  }

  // Two tasks past their seeks are on different cursors.
  lemma ApartOnCursors(g: State, t: nat, u: nat)
    requires Inv(g) && Undisturbed(g) && t < |g.tasks| && u < |g.tasks| && t != u
    requires g.tasks[t].pc.Sought? && g.tasks[u].pc.Sought?
    ensures g.tasks[t].pc.file.cursor != g.tasks[u].pc.file.cursor
  {
    assert TaskOk(g.server, g.tasks[t]) && TaskOk(g.server, g.tasks[u]);
  }

  lemma PlacedStep(g: State, t: nat, e: Choice)
    requires Inv(g) && Placed(g) && Undisturbed(g) && t < |g.tasks| && Next(g, t, e).Some?
    requires Undisturbed(Next(g, t, e).value)
    ensures Placed(Next(g, t, e).value)
  {
    var g' := Next(g, t, e).value;
    StepKeeps(g, t, e);
    CursorStep(g, t, e);
    PlacedAfter(g, t, g');
  }

  lemma PlacedPerform(g: State, a: Action)
    requires Inv(g) && Placed(g) && Undisturbed(g) && Perform(g, a).Some? && Undisturbed(Perform(g, a).value)
    ensures Placed(Perform(g, a).value)
  {
    match a
    case Go(t, e) => PlacedStep(g, t, e);
    case Arrive(ops) =>
      var g' := Perform(g, a).value;
      forall t | 0 <= t < |g'.tasks| ensures InPlace(g', t) {
        assert t < |g.tasks| ==> InPlace(g, t);
      }
  }

  lemma PlacedAfter(g: State, t: nat, g': State)
    requires Inv(g) && Placed(g) && Undisturbed(g) && Inv(g') && Undisturbed(g') && t < |g.tasks|
    requires |g'.tasks| == |g.tasks| && g'.tasks == g.tasks[t := g'.tasks[t]]
    requires g'.tasks[t].pc.Sought? ==>
      g'.tasks[t].locals.ops != [] && IsTransfer(g'.tasks[t].locals.ops[0])
      && CursorOf(g', g'.tasks[t].pc.file) == OffsetOf(g'.tasks[t].locals.ops[0])
    requires forall file :: OffCursor(g.tasks[t].pc, file) && OffCursor(g'.tasks[t].pc, file)
               ==> CursorOf(g', file) == CursorOf(g, file)
    ensures Placed(g')
  {
    forall u | 0 <= u < |g'.tasks| && u != t && g'.tasks[u].pc.Sought?
      ensures CursorOf(g', g'.tasks[u].pc.file) == CursorOf(g, g.tasks[u].pc.file)
    {
      if g.tasks[t].pc.Sought? {
        ApartOnCursors(g, t, u);
      }
      if g'.tasks[t].pc.Sought? {
        ApartOnCursors(g', t, u);
      }
    }
    forall u | 0 <= u < |g'.tasks| ensures InPlace(g', u) {
      assert InPlace(g, u) && TaskOk(g.server, g.tasks[u]) && TaskOk(g'.server, g'.tasks[u]);
    }
  }

  //---------------------------------------------------------------------------
  // The refinement
  //---------------------------------------------------------------------------

  // A transfer at the right place is the whole operation.
  lemma TransferIsWhole(g: State, t: nat, e: Choice)
    requires Inv(g) && t < |g.tasks| && g.tasks[t].pc.Sought?
    requires CursorOf(g, g.tasks[t].pc.file) == OffsetOf(g.tasks[t].locals.ops[0])
    ensures var c, file := g.tasks[t].locals, g.tasks[t].pc.file;
      Apply(g.server, c.ops[0], c.fh, e.(cloned := true, sought := true))
        == TransferAt(g.server, c.ops[0], file.id, CursorOf(g, file), e)
  {
    assert TaskOk(g.server, g.tasks[t]);
  }

  lemma AbsUpdate(g: State, t: nat, s: Server, task: Task, g': State)
    requires t < |g.tasks| && g'.server == s && g'.tasks == g.tasks[t := task]
    ensures Abs(g') == Serial(s, Abs(g).compounds[t := Progress(task)])
  {
  }

  // One concurrent step is one whole operation, or nothing.
  lemma StepRefines(g: State, a: Action)
    requires Inv(g) && Perform(g, a).Some? && (a.Go? ==> InPlace(g, a.task))
    ensures SerialRun(Abs(g), LogStep(g, a)) == Some(Abs(Perform(g, a).value))
  {
    var g' := Perform(g, a).value;
    match a {
      case Arrive(ops) =>
        assert Abs(g').compounds == Abs(g).compounds + [Begin(ops)];
        assert SerialRun(Abs(g), [Begins(ops)]) == SerialRun(Abs(g'), []);
      case Go(t, e) =>
        assert TaskOk(g.server, g.tasks[t]);
        AbsUpdate(g, t, g'.server, g'.tasks[t], g');
        if Decides(g, t, e) {
          DecisionRefines(g, t, e);
        } else {
          QuietStep(g, t, e);
          assert Abs(g).compounds[t := Progress(g.tasks[t])] == Abs(g).compounds;
        }
    }
  }

  lemma DecisionRefines(g: State, t: nat, e: Choice)
    requires Inv(g) && t < |g.tasks| && Decides(g, t, e) && InPlace(g, t)
    ensures SerialRun(Abs(g), LogStep(g, Go(t, e))) == Some(Abs(Next(g, t, e).value))
  {
    var g', c := Next(g, t, e).value, g.tasks[t].locals;
    assert TaskOk(g.server, g.tasks[t]);
    var ev := Event(c.ops[0], c.fh, Settled(g.tasks[t].pc, e));
    if g.tasks[t].pc.Sought? {
      TransferIsWhole(g, t, e);
    }
    DecisionIsApply(g, t, e);
    AbsUpdate(g, t, g'.server, g'.tasks[t], g');
    assert SerialStep(Abs(g), Runs(t, ev)) == Some(Abs(g'));
    assert SerialRun(Abs(g'), []) == Some(Abs(g'));
  }

  lemma DecisionIsApply(g: State, t: nat, e: Choice)
    requires Inv(g) && t < |g.tasks| && Decides(g, t, e)
    requires g.tasks[t].pc.Sought? ==> CursorOf(g, g.tasks[t].pc.file) == OffsetOf(g.tasks[t].locals.ops[0])
    ensures var g', c := Next(g, t, e).value, g.tasks[t].locals;
      && !Finished(c)
      && g'.tasks == g.tasks[t := Task(c, g'.tasks[t].pc)]
      && Step(g'.server, g'.tasks[t].pc.outcome) == Apply(g.server, c.ops[0], c.fh, Settled(g.tasks[t].pc, e))
  {
    assert TaskOk(g.server, g.tasks[t]);
    if g.tasks[t].pc.Sought? {
      TransferIsWhole(g, t, e);
    }
  }

  lemma QuietStep(g: State, t: nat, e: Choice)
    requires Inv(g) && t < |g.tasks| && Next(g, t, e).Some? && !Decides(g, t, e)
    ensures Next(g, t, e).value.server == g.server
    ensures Next(g, t, e).value.tasks == g.tasks[t := Next(g, t, e).value.tasks[t]]
    ensures Progress(Next(g, t, e).value.tasks[t]) == Progress(g.tasks[t])
  {
    assert TaskOk(g.server, g.tasks[t]);
  }

  lemma {:induction false} SerialAppend(a: Serial, x: seq<Atom>, y: seq<Atom>)
    requires SerialRun(a, x).Some?
    ensures SerialRun(a, x + y) == SerialRun(SerialRun(a, x).value, y)
    decreases |x|
  {
    if x == [] {
      assert x + y == y;
    } else {
      SerialAppend(SerialStep(a, x[0]).value, x[1..], y);
      TailOfSum(x, y);
    }
  }

  lemma {:induction false} RunRefines(g: State, run: seq<Action>)
    requires Inv(g) && Placed(g) && UndisturbedRun(g, run) && Play(g, run).Some?
    ensures SerialRun(Abs(g), Log(g, run)) == Some(Abs(Play(g, run).value))
    decreases |run|
  {
    if run != [] {
      var g' := Perform(g, run[0]).value;
      StepRefines(g, run[0]);
      PerformKeeps(g, run[0]);
      PlacedPerform(g, run[0]);
      RunRefines(g', run[1..]);
      SerialAppend(Abs(g), LogStep(g, run[0]), Log(g', run[1..]));
    }
  }

  // Every undisturbed run of a fresh server is its operations run one after another, in the order
  // in which they took effect, with the same tables, the same file contents, and - once a
  // compound is done - the same replies.
  lemma Serializable(root: Path, disk: Disk, run: seq<Action>)
    requires Play(Start(root, disk), run).Some? && UndisturbedRun(Start(root, disk), run)
    ensures var g, log := Play(Start(root, disk), run).value, Log(Start(root, disk), run);
      && SerialRun(Serial(Fresh(root, disk), []), log).Some?
      && var a := SerialRun(Serial(Fresh(root, disk), []), log).value;
      && a.server == g.server
      && |a.compounds| == |g.tasks|
      && forall t :: 0 <= t < |g.tasks| && g.tasks[t].pc.Done? ==> a.compounds[t] == g.tasks[t].locals
  {
    RunRefines(Start(root, disk), run);
    assert Abs(Start(root, disk)) == Serial(Fresh(root, disk), []);
  }

  // One compound's operations, as a log of the sequential server.
  function SoloLog(t: nat, events: seq<Event>): seq<Atom> {
    if events == [] then [] else [Runs(t, events[0])] + SoloLog(t, events[1..])
  }

  // Run back to back they do what the compound loop does: the sequential server is HandleCompound's.
  lemma {:induction false} SoloIsExecute(a: Serial, t: nat, env: nat -> Choice, tick: nat)
    requires t < |a.compounds|
    ensures var c := a.compounds[t];
      var ran := Execute(a.server, c, env, tick);
      SerialRun(a, SoloLog(t, CompoundLaws.EventsOf(a.server, c, env, tick)))
        == Some(Serial(ran.server, a.compounds[t := ran.compound]))
    decreases |a.compounds[t].ops|, !a.compounds[t].aborted
  {
    var c := a.compounds[t];
    if Finished(c) {
      assert a.compounds[t := c] == a.compounds;
    } else {
      var ev := Event(c.ops[0], c.fh, env(tick));
      var step := Apply(a.server, ev.op, ev.fh, ev.choice);
      var next := Advance(c, step.outcome);
      var a' := Serial(step.server, a.compounds[t := next]);
      ExecuteStep(a.server, c, env, tick, step.server, step.outcome);
      SoloIsExecute(a', t, env, tick + 1);
      var later := CompoundLaws.EventsOf(step.server, next, env, tick + 1);
      var all := [ev] + later;
      assert all[1..] == later;
      assert SoloLog(t, all)[1..] == SoloLog(t, later);
      assert SerialStep(a, Runs(t, ev)) == Some(a');
      var ran := Execute(step.server, next, env, tick + 1);
      assert a'.compounds[t := ran.compound] == a.compounds[t := ran.compound];
    }
  }

  //---------------------------------------------------------------------------
  // What the histories say about concurrent runs
  //---------------------------------------------------------------------------

  lemma {:induction false} SerialIsHistory(a: Serial, log: seq<Atom>)
    requires SerialRun(a, log).Some?
    ensures SerialRun(a, log).value.server == Run(a.server, EventsIn(log))
    decreases |log|
  {
    if log != [] {
      SerialIsHistory(SerialStep(a, log[0]).value, log[1..]);
      if log[0].Runs? {
        CompoundLaws.RunCons(a.server, log[0].event, EventsIn(log[1..]));
      } else {
        assert EventsIn(log) == EventsIn(log[1..]);
      }
    }
  }

  // So after every undisturbed concurrent run each byte of each file is the one its last writer
  // in transfer order put there.
  lemma ConcurrentHistory(root: Path, disk: Disk, run: seq<Action>, file: FileId)
    requires Play(Start(root, disk), run).Some? && UndisturbedRun(Start(root, disk), run)
    ensures var g, events := Play(Start(root, disk), run).value, EventsIn(Log(Start(root, disk), run));
      FileHistory.Holds(
        Contents(g.server.disk, file), Contents(disk, file), FileHistory.Patches(root, events, file))
  {
    Serializable(root, disk, run);
    var log := Log(Start(root, disk), run);
    SerialIsHistory(Serial(Fresh(root, disk), []), log);
    FileHistory.LastWriterWins(root, disk, EventsIn(log), file);
  }
}
