/**
 Exactly when two Reads or Writes under way together behave as if run one after
 the other: when their stateids differ. Clones of a descriptor share its
 cursor, so two that overlap on one stateid land where neither asked.
 */
module SharedStateid {
  import opened Wrappers
  import opened Words
  import opened Protocol
  import opened ServerSpec
  import opened Machine
  import opened MachineInvariant
  import opened MachineRefinement

  //---------------------------------------------------------------------------
  // Two transfers under way
  //---------------------------------------------------------------------------

  // A transfer that moves at least one byte if there is one.
  predicate MovesBytes(op: NfsOperation, t: Transfer) {
    (op.Read? && t.Moved? && t.n > 0 && op.read.count > 0) || (op.Write? && Written(op.write.data, t) != [])
  }

  // A task about to run the last operation of its compound, a Read or Write on an open stateid that
  // the operating system lets through. `e` is everything that system decides about it.
  predicate ReadyToTransfer(g: State, t: nat, e: Choice) {
    && t < |g.tasks| && g.tasks[t].pc.Ready? && !Finished(g.tasks[t].locals) && |g.tasks[t].locals.ops| == 1
    && OnSomeFile(g.server, g.tasks[t].locals.ops[0])
    && e.cloned && e.sought && MovesBytes(g.tasks[t].locals.ops[0], e.transfer)
  }

  predicate OnSomeFile(s: Server, op: NfsOperation) {
    IsTransfer(op) && StateidOf(op) in s.stateids && s.stateids[StateidOf(op)].file.Some?
  }

  function OpOf(g: State, t: nat): NfsOperation
    requires t < |g.tasks| && g.tasks[t].locals.ops != []
  {
    g.tasks[t].locals.ops[0]
  }

  function EventOf(g: State, t: nat, e: Choice): Event
    requires t < |g.tasks| && g.tasks[t].locals.ops != []
  {
    Event(g.tasks[t].locals.ops[0], g.tasks[t].locals.fh, e)
  }

  // Two tasks ready to transfer, with nobody holding or waiting to hold the stateid table alone.
  predicate ReadyPair(g: State, t: nat, e: Choice, u: nat, f: Choice) {
    && t != u && ReadyToTransfer(g, t, e) && ReadyToTransfer(g, u, f)
    && g.stateidLock.writer.None? && g.stateidLock.queue == []
  }

  function WithDisk(g: State, disk: Disk): State {
    g.(server := g.server.(disk := disk))
  }

  // Steps of the two tasks only, in any order.
  ghost predicate PairOnly(run: seq<Action>, t: nat, e: Choice, u: nat, f: Choice) {
    forall i :: 0 <= i < |run| ==> run[i] == Go(t, e) || run[i] == Go(u, f)
  }

  // Both operations have taken effect.
  predicate BothRan(g: State, t: nat, u: nat) {
    t < |g.tasks| && u < |g.tasks| && Finished(Progress(g.tasks[t])) && Finished(Progress(g.tasks[u]))
  }

  // A complete interleaving of the two operations.
  ghost predicate Interleaves(g: State, run: seq<Action>, t: nat, e: Choice, u: nat, f: Choice) {
    PairOnly(run, t, e, u, f) && Play(g, run).Some? && BothRan(Play(g, run).value, t, u)
  }

  // Tables, contents and replies are those of one operation run whole and then the other.
  predicate EndsSerial(g: State, end: State, t: nat, e: Choice, u: nat, f: Choice)
    requires t < |g.tasks| && u < |g.tasks| && g.tasks[t].locals.ops != [] && g.tasks[u].locals.ops != []
  {
    var x, y := Runs(t, EventOf(g, t, e)), Runs(u, EventOf(g, u, f));
    SerialRun(Abs(g), [x, y]) == Some(Abs(end)) || SerialRun(Abs(g), [y, x]) == Some(Abs(end))
  }

  // Every interleaving, whatever the files hold, is serial.
  ghost predicate AlwaysSerial(g: State, t: nat, e: Choice, u: nat, f: Choice)
    requires t < |g.tasks| && u < |g.tasks| && g.tasks[t].locals.ops != [] && g.tasks[u].locals.ops != []
  {
    forall disk: Disk, run: seq<Action> :: Interleaves(WithDisk(g, disk), run, t, e, u, f) ==>
      EndsSerial(WithDisk(g, disk), Play(WithDisk(g, disk), run).value, t, e, u, f)
  }

  //---------------------------------------------------------------------------
  // Different stateids: every interleaving is serial
  //---------------------------------------------------------------------------

  // A task on its way through its last operation, which it began as `c`, or past it.
  predicate OnItsWay(task: Task, c: Compound) {
    if Finished(Progress(task)) then (task.pc.Finishing? || task.pc.Ready? || task.pc.Done?)
    else task.locals == c && !task.pc.Finishing?
  }

  // What the steps of the two tasks keep while their stateids differ.
  ghost predicate PairApart(g: State, t: nat, u: nat, c: Compound, d: Compound) {
    && Inv(g) && t != u && t < |g.tasks| && u < |g.tasks|
    && |c.ops| == 1 && |d.ops| == 1 && IsTransfer(c.ops[0]) && IsTransfer(d.ops[0])
    && StateidOf(c.ops[0]) != StateidOf(d.ops[0])
    && OnItsWay(g.tasks[t], c) && OnItsWay(g.tasks[u], d)
    && InPlace(g, t) && InPlace(g, u)
  }

  lemma PairSwap(g: State, t: nat, u: nat, c: Compound, d: Compound)
    requires PairApart(g, t, u, c, d)
    ensures PairApart(g, u, t, d, c)
  {
  }

  lemma OnItsWayStep(g: State, t: nat, e: Choice, c: Compound)
    requires Inv(g) && t < |g.tasks| && |c.ops| == 1 && IsTransfer(c.ops[0]) && OnItsWay(g.tasks[t], c)
    requires Next(g, t, e).Some?
    ensures OnItsWay(Next(g, t, e).value.tasks[t], c)
    ensures Decides(g, t, e) <==>
      !Finished(Progress(g.tasks[t])) && Finished(Progress(Next(g, t, e).value.tasks[t]))
  {
    assert TaskOk(g.server, g.tasks[t]);
    if Decides(g, t, e) {
      DecisionUnfinished(g, t, e);
    } else {
      QuietStep(g, t, e);
    }
  }

  lemma DecisionUnfinished(g: State, t: nat, e: Choice)
    requires Inv(g) && t < |g.tasks| && Decides(g, t, e)
    ensures !Finished(g.tasks[t].locals) && Next(g, t, e).value.tasks[t].locals == g.tasks[t].locals
  {
    assert TaskOk(g.server, g.tasks[t]);
  }

  lemma PairStep(g: State, t: nat, e: Choice, u: nat, c: Compound, d: Compound)
    requires PairApart(g, t, u, c, d) && Next(g, t, e).Some?
    ensures PairApart(Next(g, t, e).value, t, u, c, d)
    ensures Next(g, t, e).value.tasks[u] == g.tasks[u]
  {
    StepKeeps(g, t, e);
    CursorStep(g, t, e);
    OnItsWayStep(g, t, e, c);
    PairInPlace(g, t, e, u, c, d);
  }

  lemma SoughtOn(g: State, t: nat, c: Compound)
    requires Inv(g) && t < |g.tasks| && OnItsWay(g.tasks[t], c) && g.tasks[t].pc.Sought?
    ensures OnFile(g.server, g.tasks[t], g.tasks[t].pc.file) && g.tasks[t].locals == c
  {
    assert TaskOk(g.server, g.tasks[t]);
  }

  lemma PairInPlace(g: State, t: nat, e: Choice, u: nat, c: Compound, d: Compound)
    requires PairApart(g, t, u, c, d) && Next(g, t, e).Some?
    requires Inv(Next(g, t, e).value) && OnItsWay(Next(g, t, e).value.tasks[t], c)
    ensures InPlace(Next(g, t, e).value, t) && InPlace(Next(g, t, e).value, u)
  {
    var g' := Next(g, t, e).value;
    CursorStep(g, t, e);
    if g.tasks[u].pc.Sought? {
      SoughtOn(g, u, d);
      SoughtOn(g', u, d);
      PairOffCursor(g, t, c, d, g.tasks[u].pc.file);
      PairOffCursor(g', t, c, d, g.tasks[u].pc.file);
    }
  }

  // Open stateids have cursors of their own, so a task on another stateid is off the cursor of d's.
  lemma PairOffCursor(g: State, t: nat, c: Compound, d: Compound, file: File)
    requires Inv(g) && t < |g.tasks| && OnItsWay(g.tasks[t], c)
    requires |c.ops| == 1 && |d.ops| == 1 && IsTransfer(c.ops[0]) && IsTransfer(d.ops[0])
    requires StateidOf(c.ops[0]) != StateidOf(d.ops[0]) && StateidOf(d.ops[0]) in g.server.stateids
    requires g.server.stateids[StateidOf(d.ops[0])].file == Some(file)
    ensures OffCursor(g.tasks[t].pc, file)
  {
    if g.tasks[t].pc.Sought? {
      SoughtOn(g, t, c);
    }
  }

  // The operations still to take effect, in some order.
  ghost predicate SomeOrder(log: seq<Atom>, x: Atom, xToGo: bool, y: Atom, yToGo: bool) {
    if xToGo && yToGo then log == [x, y] || log == [y, x]
    else log == (if xToGo then [x] else []) + (if yToGo then [y] else [])
  }

  // One step of either task: what it adds to the log, and what is still to go.
  ghost predicate PairAdvance(g: State, g': State, step: seq<Atom>, t: nat, x: Atom, u: nat, y: Atom)
    requires t < |g.tasks| && u < |g.tasks| && t < |g'.tasks| && u < |g'.tasks|
  {
    var tToGo, uToGo := !Finished(Progress(g.tasks[t])), !Finished(Progress(g.tasks[u]));
    var tToGo', uToGo' := !Finished(Progress(g'.tasks[t])), !Finished(Progress(g'.tasks[u]));
    || (step == [] && tToGo' == tToGo && uToGo' == uToGo)
    || (step == [x] && tToGo && !tToGo' && uToGo' == uToGo)
    || (step == [y] && uToGo && !uToGo' && tToGo' == tToGo)
  }

  lemma PairAdvances(g: State, a: Action, t: nat, e: Choice, u: nat, f: Choice, c: Compound, d: Compound)
    requires PairApart(g, t, u, c, d) && (a == Go(t, e) || a == Go(u, f)) && Perform(g, a).Some?
    requires e.cloned && e.sought && f.cloned && f.sought
    ensures PairApart(Perform(g, a).value, t, u, c, d)
    ensures PairAdvance(g, Perform(g, a).value, LogStep(g, a),
                        t, Runs(t, Event(c.ops[0], c.fh, e)), u, Runs(u, Event(d.ops[0], d.fh, f)))
  {
    if a == Go(t, e) {
      PairStep(g, t, e, u, c, d);
      PairLogStep(g, t, e, c);
    } else {
      PairSwap(g, t, u, c, d);
      PairStep(g, u, f, t, d, c);
      PairSwap(Perform(g, a).value, u, t, d, c);
      PairLogStep(g, u, f, d);
    }
  }

  lemma {:induction false} PairLog(
    g: State, run: seq<Action>, t: nat, e: Choice, u: nat, f: Choice, c: Compound, d: Compound)
    requires PairApart(g, t, u, c, d) && Interleaves(g, run, t, e, u, f)
    requires e.cloned && e.sought && f.cloned && f.sought
    ensures SomeOrder(
      Log(g, run), Runs(t, Event(c.ops[0], c.fh, e)), !Finished(Progress(g.tasks[t])),
      Runs(u, Event(d.ops[0], d.fh, f)), !Finished(Progress(g.tasks[u])))
    decreases |run|
  {
    if run != [] {
      PairAdvances(g, run[0], t, e, u, f, c, d);
      PairLog(Perform(g, run[0]).value, run[1..], t, e, u, f, c, d);
    }
  }

  lemma {:induction false} PairRefines(
    g: State, run: seq<Action>, t: nat, e: Choice, u: nat, f: Choice, c: Compound, d: Compound)
    requires PairApart(g, t, u, c, d) && PairOnly(run, t, e, u, f) && Play(g, run).Some?
    requires e.cloned && e.sought && f.cloned && f.sought
    ensures SerialRun(Abs(g), Log(g, run)) == Some(Abs(Play(g, run).value))
    decreases |run|
  {
    if run != [] {
      var g' := Perform(g, run[0]).value;
      StepRefines(g, run[0]);
      PairAdvances(g, run[0], t, e, u, f, c, d);
      PairRefines(g', run[1..], t, e, u, f, c, d);
      SerialAppend(Abs(g), LogStep(g, run[0]), Log(g', run[1..]));
    }
  }

  // What one step of a task adds to the log.
  lemma PairLogStep(g: State, t: nat, e: Choice, c: Compound)
    requires Inv(g) && t < |g.tasks| && |c.ops| == 1 && IsTransfer(c.ops[0]) && OnItsWay(g.tasks[t], c)
    requires Next(g, t, e).Some? && e.cloned && e.sought
    ensures var over, over' := Finished(Progress(g.tasks[t])), Finished(Progress(Next(g, t, e).value.tasks[t]));
      && (over ==> over')
      && LogStep(g, Go(t, e)) == if !over && over' then [Runs(t, Event(c.ops[0], c.fh, e))] else []
  {
    OnItsWayStep(g, t, e, c);
    if Decides(g, t, e) {
      DecisionUnfinished(g, t, e);
      assert Settled(g.tasks[t].pc, e) == e;
    } else {
      QuietStep(g, t, e);
    }
  }

  lemma InvWithDisk(g: State, disk: Disk)
    requires Inv(g)
    ensures Inv(WithDisk(g, disk))
  {
    forall t | 0 <= t < |g.tasks| ensures TaskOk(g.server.(disk := disk), g.tasks[t]) {
      assert TaskOk(g.server, g.tasks[t]);
    }
  }

  lemma ApartIsSerial(g: State, t: nat, e: Choice, u: nat, f: Choice)
    requires Inv(g) && ReadyPair(g, t, e, u, f)
    requires StateidOf(OpOf(g, t)) != StateidOf(OpOf(g, u))
    ensures AlwaysSerial(g, t, e, u, f)
  {
    forall disk: Disk, run: seq<Action> | Interleaves(WithDisk(g, disk), run, t, e, u, f)
      ensures EndsSerial(WithDisk(g, disk), Play(WithDisk(g, disk), run).value, t, e, u, f)
    {
      InvWithDisk(g, disk);
      PairLog(WithDisk(g, disk), run, t, e, u, f, g.tasks[t].locals, g.tasks[u].locals);
      PairRefines(WithDisk(g, disk), run, t, e, u, f, g.tasks[t].locals, g.tasks[u].locals);
    }
  }

  //---------------------------------------------------------------------------
  // One stateid: the overlapping run
  //---------------------------------------------------------------------------

  // Four steps of one task: a Read or Write up to the end of its seek, or a whole Open.
  function FourSteps(t: nat, e: Choice): seq<Action> {
    [Go(t, e), Go(t, e)] + [Go(t, e), Go(t, e)]
  }

  // Both seek, then both transfer.
  function Overlapping(t: nat, e: Choice, u: nat, f: Choice): seq<Action> {
    FourSteps(t, e) + (FourSteps(u, f) + [Go(t, e), Go(u, f)])
  }

  lemma PlayGo(g: State, t: nat, e: Choice, g': State, rest: seq<Action>)
    requires t < |g.tasks| && Next(g, t, e) == Some(g')
    ensures Play(g, [Go(t, e)] + rest) == Play(g', rest)
  {
    assert ([Go(t, e)] + rest)[1..] == rest;
  }

  lemma PlayArrive(g: State, ops: seq<NfsOperation>, rest: seq<Action>)
    ensures Play(g, [Arrive(ops)] + rest) == Play(g.(tasks := g.tasks + [Task(Begin(ops), Ready)]), rest)
  {
    assert ([Arrive(ops)] + rest)[1..] == rest;
  }

  lemma TwoAsOnes(t: nat, e: Choice, rest: seq<Action>)
    ensures [Go(t, e), Go(t, e)] + rest == [Go(t, e)] + ([Go(t, e)] + rest)
  {
  }

  lemma PlayTwo(t: nat, e: Choice, g: State, g1: State, g2: State, rest: seq<Action>)
    requires t < |g.tasks| && t < |g1.tasks|
    requires Next(g, t, e) == Some(g1) && Next(g1, t, e) == Some(g2)
    ensures Play(g, [Go(t, e), Go(t, e)] + rest) == Play(g2, rest)
  {
    TwoAsOnes(t, e, rest);
    PlayGo(g, t, e, g1, [Go(t, e)] + rest);
    PlayGo(g1, t, e, g2, rest);
  }

  lemma FourAsTwos(t: nat, e: Choice, rest: seq<Action>)
    ensures FourSteps(t, e) + rest == [Go(t, e), Go(t, e)] + ([Go(t, e), Go(t, e)] + rest)
  {
  }

  predicate ReadyAlone(g: State, t: nat, e: Choice) {
    ReadyToTransfer(g, t, e) && g.stateidLock.writer.None? && g.stateidLock.queue == []
  }

  // Up to the grant of the read lock.
  function AfterGrant(g: State, t: nat): State
    requires t < |g.tasks|
  {
    At(g.(stateidLock := Lock(g.stateidLock.readers + {t}, None, [])), t, Holding)
  }

  function FileOf(g: State, t: nat): File
    requires t < |g.tasks| && g.tasks[t].locals.ops != [] && OnSomeFile(g.server, OpOf(g, t))
  {
    g.server.stateids[StateidOf(OpOf(g, t))].file.value
  }

  // Past the seek.
  function AfterSeek(g: State, t: nat): State
    requires t < |g.tasks| && g.tasks[t].locals.ops != [] && OnSomeFile(g.server, OpOf(g, t))
  {
    var file := FileOf(g, t);
    At(AfterGrant(g, t).(cursors := g.cursors[file.cursor := OffsetOf(OpOf(g, t))]), t, Sought(file))
  }

  lemma GrantRun(g: State, t: nat, e: Choice, rest: seq<Action>)
    requires ReadyAlone(g, t, e)
    ensures Play(g, [Go(t, e), Go(t, e)] + rest) == Play(AfterGrant(g, t), rest)
  {
    var g1 := Next(g, t, e).value;
    assert g1 == At(g.(stateidLock := Lock(g.stateidLock.readers, None, [Waiter(t, Shared)])), t, Waiting);
    assert Next(g1, t, e).value == AfterGrant(g, t);
    PlayTwo(t, e, g, g1, AfterGrant(g, t), rest);
  }

  lemma SeekRun(g: State, t: nat, e: Choice, rest: seq<Action>)
    requires ReadyAlone(g, t, e)
    ensures Play(g, FourSteps(t, e) + rest) == Play(AfterSeek(g, t), rest)
  {
    FourAsTwos(t, e, rest);
    GrantRun(g, t, e, [Go(t, e), Go(t, e)] + rest);
    var g2 := AfterGrant(g, t);
    var g3 := At(g2, t, Cloned(FileOf(g, t)));
    assert Next(g2, t, e) == Some(g3);
    assert Next(g3, t, e).value.tasks == AfterSeek(g, t).tasks;
    PlayTwo(t, e, g2, g3, AfterSeek(g, t), rest);
  }

  // Two transfers, one after the other, at given positions of one file.
  function TwoTransfers(
    s: Server, id: FileId, x: NfsOperation, at: nat, e: Choice, y: NfsOperation, at': nat, f: Choice): (Step, Step)
    requires IsTransfer(x) && IsTransfer(y)
  {
    var first := TransferAt(s, x, id, at, e);
    (first, TransferAt(first.server, y, id, at', f))
  }

  // Both past their seeks.
  function BothSought(g: State, t: nat, e: Choice, u: nat, f: Choice): State
    requires ReadyPair(g, t, e, u, f)
  {
    AfterSeek(AfterSeek(g, t), u)
  }

  lemma BothSeek(g: State, t: nat, e: Choice, u: nat, f: Choice)
    requires ReadyPair(g, t, e, u, f)
    ensures Play(g, Overlapping(t, e, u, f)) == Play(BothSought(g, t, e, u, f), [Go(t, e), Go(u, f)])
  {
    var last := [Go(t, e), Go(u, f)];
    SeekRun(g, t, e, FourSteps(u, f) + last);
    assert AfterSeek(g, t).tasks[u] == g.tasks[u];
    SeekRun(AfterSeek(g, t), u, f, last);
  }

  // The two tasks moved on to new program counters.
  function Moved(g: State, t: nat, p: Pc, u: nat, q: Pc): seq<Task>
    requires t < |g.tasks| && u < |g.tasks|
  {
    g.tasks[t := Task(g.tasks[t].locals, p)][u := Task(g.tasks[u].locals, q)]
  }

  lemma MovedTwice(g: State, g': State, t: nat, p: Pc, p': Pc, u: nat, q: Pc, q': Pc)
    requires t < |g.tasks| && u < |g.tasks| && t != u && g'.tasks == Moved(g, t, p, u, q)
    ensures Moved(g', t, p', u, q') == Moved(g, t, p', u, q')
  {
  }

  lemma BothSoughtIs(g: State, t: nat, e: Choice, u: nat, f: Choice)
    requires ReadyPair(g, t, e, u, f) && StateidOf(OpOf(g, t)) == StateidOf(OpOf(g, u))
    ensures var g2, file := BothSought(g, t, e, u, f), FileOf(g, t);
      && g2.server == g.server && CursorOf(g2, file) == OffsetOf(OpOf(g, u))
      && g2.tasks == Moved(g, t, Sought(file), u, Sought(file))
  {
  }

  predicate AboutToTransfer(g: State, t: nat, op: NfsOperation, file: File) {
    && t < |g.tasks| && g.tasks[t].pc == Sought(file) && !Finished(g.tasks[t].locals)
    && IsTransfer(op) && g.tasks[t].locals.ops[0] == op
  }

  lemma BothAboutTo(g: State, t: nat, e: Choice, u: nat, f: Choice)
    requires ReadyPair(g, t, e, u, f) && StateidOf(OpOf(g, t)) == StateidOf(OpOf(g, u))
    ensures var g2, file := BothSought(g, t, e, u, f), FileOf(g, t);
      AboutToTransfer(g2, t, OpOf(g, t), file) && AboutToTransfer(g2, u, OpOf(g, u), file)
  {
  }

  // Both next operations are transfers on open files.
  predicate OnFiles(g: State, t: nat, u: nat) {
    && t < |g.tasks| && g.tasks[t].locals.ops != [] && OnSomeFile(g.server, OpOf(g, t))
    && u < |g.tasks| && g.tasks[u].locals.ops != [] && OnSomeFile(g.server, OpOf(g, u))
  }

  // A transfer wherever the cursor is, and the cursor behind it.
  lemma TransferStep(g: State, t: nat, op: NfsOperation, file: File, e: Choice, s: Server, at: nat)
    requires AboutToTransfer(g, t, op, file) && g.server == s && CursorOf(g, file) == at
    ensures Next(g, t, e).Some?
    ensures var g', step := Next(g, t, e).value, TransferAt(s, op, file.id, at, e);
      && g'.server == step.server
      && g'.tasks == g.tasks[t := Task(g.tasks[t].locals, Finishing(step.outcome))]
      && CursorOf(g', file) == at + CursorMove(s, op, file.id, at, e)
  {
  }

  lemma TransferSteps(
    g: State, t: nat, x: NfsOperation, e: Choice, u: nat, y: NfsOperation, f: Choice, file: File,
    s: Server, at: nat, steps: (Step, Step))
    requires t != u && AboutToTransfer(g, t, x, file) && AboutToTransfer(g, u, y, file)
    requires g.server == s && CursorOf(g, file) == at
    requires steps.0 == TransferAt(s, x, file.id, at, e)
    requires steps.1 == TransferAt(steps.0.server, y, file.id, at + CursorMove(s, x, file.id, at, e), f)
    ensures Play(g, [Go(t, e), Go(u, f)]).Some?
    ensures var end := Play(g, [Go(t, e), Go(u, f)]).value;
      && end.server == steps.1.server
      && end.tasks == Moved(g, t, Finishing(steps.0.outcome), u, Finishing(steps.1.outcome))
  {
    TransferStep(g, t, x, file, e, s, at);
    var g1 := Next(g, t, e).value;
    TransferStep(g1, u, y, file, f, steps.0.server, at + CursorMove(s, x, file.id, at, e));
    assert [Go(t, e), Go(u, f)] == [Go(t, e)] + ([Go(u, f)] + []);
    PlayGo(g, t, e, g1, [Go(u, f)] + []);
    PlayGo(g1, u, f, Next(g1, u, f).value, []);
  }

  // What the two operations of a pair on one stateid do, overlapping: the first to transfer does so
  // at the other's offset, and the second right behind it.
  function Overlapped(g: State, t: nat, e: Choice, u: nat, f: Choice): (Step, Step)
    requires OnFiles(g, t, u)
  {
    var x, y, id := OpOf(g, t), OpOf(g, u), FileOf(g, t).id;
    var at := OffsetOf(y);
    TwoTransfers(g.server, id, x, at, e, y, at + CursorMove(g.server, x, id, at, e), f)
  }

  // Run whole, each transfers at its own offset.
  function InOrder(g: State, t: nat, e: Choice, u: nat, f: Choice): (Step, Step)
    requires OnFiles(g, t, u)
  {
    TwoTransfers(g.server, FileOf(g, t).id, OpOf(g, t), OffsetOf(OpOf(g, t)), e, OpOf(g, u), OffsetOf(OpOf(g, u)), f)
  }

  lemma OverlapRun(g: State, t: nat, e: Choice, u: nat, f: Choice)
    requires ReadyPair(g, t, e, u, f) && StateidOf(OpOf(g, t)) == StateidOf(OpOf(g, u))
    ensures Play(g, Overlapping(t, e, u, f)).Some?
    ensures var end, (first, second) := Play(g, Overlapping(t, e, u, f)).value, Overlapped(g, t, e, u, f);
      && end.server == second.server
      && end.tasks == Moved(g, t, Finishing(first.outcome), u, Finishing(second.outcome))
  {
    BothSeek(g, t, e, u, f);
    BothSoughtIs(g, t, e, u, f);
    BothAboutTo(g, t, e, u, f);
    OverlapRest(g, BothSought(g, t, e, u, f), t, e, u, f);
  }

  lemma OverlapRest(g: State, g2: State, t: nat, e: Choice, u: nat, f: Choice)
    requires OnFiles(g, t, u) && t != u && g2.server == g.server
    requires CursorOf(g2, FileOf(g, t)) == OffsetOf(OpOf(g, u))
    requires g2.tasks == Moved(g, t, Sought(FileOf(g, t)), u, Sought(FileOf(g, t)))
    requires AboutToTransfer(g2, t, OpOf(g, t), FileOf(g, t)) && AboutToTransfer(g2, u, OpOf(g, u), FileOf(g, t))
    ensures Play(g2, [Go(t, e), Go(u, f)]).Some?
    ensures var end, (first, second) := Play(g2, [Go(t, e), Go(u, f)]).value, Overlapped(g, t, e, u, f);
      && end.server == second.server
      && end.tasks == Moved(g, t, Finishing(first.outcome), u, Finishing(second.outcome))
  {
    OverlappedSteps(g, t, e, u, f);
    OverlapEnds(g, g2, t, OpOf(g, t), e, u, OpOf(g, u), f, FileOf(g, t), g.server, OffsetOf(OpOf(g, u)),
                Overlapped(g, t, e, u, f));
  }

  lemma OverlappedSteps(g: State, t: nat, e: Choice, u: nat, f: Choice)
    requires OnFiles(g, t, u)
    ensures var steps, s, id, at := Overlapped(g, t, e, u, f), g.server, FileOf(g, t).id, OffsetOf(OpOf(g, u));
      && steps.0 == TransferAt(s, OpOf(g, t), id, at, e)
      && steps.1 == TransferAt(steps.0.server, OpOf(g, u), id, at + CursorMove(s, OpOf(g, t), id, at, e), f)
  {
  }

  lemma OverlapEnds(
    g: State, g2: State, t: nat, x: NfsOperation, e: Choice, u: nat, y: NfsOperation, f: Choice, file: File,
    s: Server, at: nat, steps: (Step, Step))
    requires t < |g.tasks| && u < |g.tasks| && t != u && g2.server == s && CursorOf(g2, file) == at
    requires AboutToTransfer(g2, t, x, file) && AboutToTransfer(g2, u, y, file)
    requires g2.tasks == Moved(g, t, Sought(file), u, Sought(file))
    requires steps.0 == TransferAt(s, x, file.id, at, e)
    requires steps.1 == TransferAt(steps.0.server, y, file.id, at + CursorMove(s, x, file.id, at, e), f)
    ensures Play(g2, [Go(t, e), Go(u, f)]).Some?
    ensures var end := Play(g2, [Go(t, e), Go(u, f)]).value;
      && end.server == steps.1.server
      && end.tasks == Moved(g, t, Finishing(steps.0.outcome), u, Finishing(steps.1.outcome))
  {
    TransferSteps(g2, t, x, e, u, y, f, file, s, at, steps);
    MovedTwice(g, g2, t, Sought(file), Finishing(steps.0.outcome), u, Sought(file), Finishing(steps.1.outcome));
  }

  // A whole transfer, at its own offset.
  lemma SerialOne(a: Serial, t: nat, op: NfsOperation, e: Choice)
    requires t < |a.compounds| && !Finished(a.compounds[t]) && a.compounds[t].ops[0] == op
    requires OnSomeFile(a.server, op) && e.cloned && e.sought
    ensures var step := TransferAt(a.server, op, a.server.stateids[StateidOf(op)].file.value.id, OffsetOf(op), e);
      SerialStep(a, Runs(t, Event(op, a.compounds[t].fh, e)))
        == Some(Serial(step.server, a.compounds[t := Advance(a.compounds[t], step.outcome)]))
  {
  }

  lemma SerialRunTwo(a: Serial, x: Atom, b: Serial, y: Atom, c: Serial)
    requires SerialStep(a, x) == Some(b) && SerialStep(b, y) == Some(c)
    ensures SerialRun(a, [x, y]) == Some(c)
  {
    assert [x, y][1..] == [y] && [y][1..] == [];
    assert SerialRun(b, [y]) == SerialRun(c, []);
  }

  lemma SerialTwo(g: State, t: nat, e: Choice, u: nat, f: Choice)
    requires ReadyPair(g, t, e, u, f) && StateidOf(OpOf(g, t)) == StateidOf(OpOf(g, u))
    ensures var (first, second) := InOrder(g, t, e, u, f);
      SerialRun(Abs(g), [Runs(t, EventOf(g, t, e)), Runs(u, EventOf(g, u, f))])
        == Some(Serial(second.server, Abs(g).compounds[t := Advance(g.tasks[t].locals, first.outcome)]
                                                      [u := Advance(g.tasks[u].locals, second.outcome)]))
  {
    var x, y, id := OpOf(g, t), OpOf(g, u), FileOf(g, t).id;
    var (first, second) := InOrder(g, t, e, u, f);
    TransferTables(g.server, x, id, OffsetOf(x), e);
    SerialOne(Abs(g), t, x, e);
    var b := Serial(first.server, Abs(g).compounds[t := Advance(g.tasks[t].locals, first.outcome)]);
    assert b.compounds[u] == g.tasks[u].locals;
    SerialOne(b, u, y, f);
    var c := Serial(second.server, b.compounds[u := Advance(g.tasks[u].locals, second.outcome)]);
    SerialRunTwo(Abs(g), Runs(t, EventOf(g, t, e)), b, Runs(u, EventOf(g, u, f)), c);
  }

  //---------------------------------------------------------------------------
  // One stateid: the overlapping run is not serial
  //---------------------------------------------------------------------------

  function Zeros(n: nat): seq<byte> {
    seq(n, _ => 0)
  }

  // Contents that tell: one byte from the second offset on for a read to find, or none.
  function Telling(id: FileId, x: NfsOperation, y: NfsOperation): Disk
    requires IsTransfer(y)
  {
    map[id := if x.Read? then Zeros(OffsetOf(y) + 1) else []]
  }

  // A read first, or two writes in the order of their offsets.
  predicate InTellingOrder(x: NfsOperation, y: NfsOperation) {
    (x.Read? && IsTransfer(y)) || (x.Write? && y.Write? && x.write.offset <= y.write.offset)
  }

  function Size(s: Server, id: FileId): nat {
    |Contents(s.disk, id)|
  }

  function Max(a: nat, b: nat): nat {
    if a < b then b else a
  }

  // How many bytes a write puts into its file.
  function Put(op: NfsOperation, e: Choice): nat
    requires op.Write?
  {
    |Written(op.write.data, e.transfer)|
  }

  // How a write that moves bytes sizes its file, and how far it moves the cursor.
  lemma WriteSizes(s: Server, op: NfsOperation, id: FileId, at: nat, e: Choice)
    requires op.Write? && MovesBytes(op, e.transfer)
    ensures Put(op, e) > 0 && CursorMove(s, op, id, at, e) == Put(op, e)
    ensures Size(TransferAt(s, op, id, at, e).server, id) == Max(Size(s, id), at + Put(op, e))
  {
  }

  lemma TwoWriteSizes(
    s: Server, id: FileId, x: NfsOperation, at: nat, e: Choice, y: NfsOperation, at': nat, f: Choice)
    requires x.Write? && y.Write? && MovesBytes(x, e.transfer) && MovesBytes(y, f.transfer)
    ensures Size(TwoTransfers(s, id, x, at, e, y, at', f).1.server, id)
      == Max(Max(Size(s, id), at + Put(x, e)), at' + Put(y, f))
  {
    WriteSizes(s, x, id, at, e);
    WriteSizes(TransferAt(s, x, id, at, e).server, y, id, at', f);
  }

  // What a read that moves bytes does with one byte in its way, and with none.
  lemma ReadFinds(s: Server, op: NfsOperation, id: FileId, at: nat, e: Choice)
    requires op.Read? && MovesBytes(op, e.transfer)
    ensures TransferAt(s, op, id, at, e).server == s
    ensures Contents(s.disk, id) == Zeros(at + 1) ==>
      TransferAt(s, op, id, at, e).outcome == Succeed(ReadData([0])) && CursorMove(s, op, id, at, e) == 1
    ensures Size(s, id) <= at ==> TransferAt(s, op, id, at, e).outcome == Succeed(ReadData([]))
  {
    if Contents(s.disk, id) == Zeros(at + 1) {
      assert ReadAt(Zeros(at + 1), at, Min(e.transfer.n, op.read.count)) == [0];
    }
  }

  // A read, then a write: the write alone sizes the file.
  lemma ReadWriteSizes(
    s: Server, id: FileId, x: NfsOperation, at: nat, e: Choice, y: NfsOperation, at': nat, f: Choice)
    requires x.Read? && y.Write? && MovesBytes(x, e.transfer) && MovesBytes(y, f.transfer)
    ensures Size(TwoTransfers(s, id, x, at, e, y, at', f).1.server, id) == Max(Size(s, id), at' + Put(y, f))
    ensures Size(TwoTransfers(s, id, y, at', f, x, at, e).1.server, id) == Max(Size(s, id), at' + Put(y, f))
  {
    ReadFinds(s, x, id, at, e);
    ReadFinds(TransferAt(s, y, id, at', f).server, x, id, at, e);
    WriteSizes(s, y, id, at', f);
  }

  // Two reads: the second finds the byte only when it reads at its own offset.
  lemma ReadTells(s: Server, id: FileId, x: NfsOperation, e: Choice, y: NfsOperation, f: Choice)
    requires x.Read? && y.Read? && MovesBytes(x, e.transfer) && MovesBytes(y, f.transfer)
    requires Contents(s.disk, id) == Contents(Telling(id, x, y), id)
    ensures var at := OffsetOf(y);
      && TwoTransfers(s, id, x, at, e, y, at + CursorMove(s, x, id, at, e), f).1.outcome == Succeed(ReadData([]))
      && TwoTransfers(s, id, x, OffsetOf(x), e, y, at, f).1.outcome == Succeed(ReadData([0]))
      && TwoTransfers(s, id, y, at, f, x, OffsetOf(x), e).0.outcome == Succeed(ReadData([0]))
  {
    var at := OffsetOf(y);
    ReadFinds(s, x, id, at, e);
    ReadFinds(s, x, id, OffsetOf(x), e);
    ReadFinds(s, y, id, at, f);
    ReadFinds(s, y, id, at + 1, f);
  }

  predicate TellingPair(g: State, t: nat, e: Choice, u: nat, f: Choice) {
    && ReadyPair(g, t, e, u, f) && StateidOf(OpOf(g, t)) == StateidOf(OpOf(g, u))
    && InTellingOrder(OpOf(g, t), OpOf(g, u))
    && g.server.disk == Telling(FileOf(g, t).id, OpOf(g, t), OpOf(g, u))
  }

  lemma AdvanceLast(c: Compound, o: Outcome)
    requires |c.ops| == 1
    ensures Finished(Advance(c, o))
  {
  }

  lemma OverlapsPairOnly(t: nat, e: Choice, u: nat, f: Choice)
    ensures PairOnly(Overlapping(t, e, u, f), t, e, u, f)
  {
    var a, b := FourSteps(t, e), FourSteps(u, f) + [Go(t, e), Go(u, f)];
    assert forall i :: 0 <= i < |a| ==> a[i] == Go(t, e);
    assert forall i :: 0 <= i < |b| ==> b[i] == Go(t, e) || b[i] == Go(u, f);
  }

  lemma OverlapCompletes(g: State, t: nat, e: Choice, u: nat, f: Choice)
    requires ReadyPair(g, t, e, u, f) && StateidOf(OpOf(g, t)) == StateidOf(OpOf(g, u))
    ensures Interleaves(g, Overlapping(t, e, u, f), t, e, u, f)
  {
    OverlapRun(g, t, e, u, f);
    OverlapsPairOnly(t, e, u, f);
    AdvanceLast(g.tasks[t].locals, Overlapped(g, t, e, u, f).0.outcome);
    AdvanceLast(g.tasks[u].locals, Overlapped(g, t, e, u, f).1.outcome);
  }

  // How long a file is after two operations of a pair.
  function Length(g: State, t: nat, steps: (Step, Step)): nat
    requires OnFiles(g, t, t)
  {
    Size(steps.1.server, FileOf(g, t).id)
  }

  lemma OverlapIsLongerAfterRead(g: State, t: nat, e: Choice, u: nat, f: Choice)
    requires TellingPair(g, t, e, u, f) && OpOf(g, t).Read? && OpOf(g, u).Write?
    ensures Length(g, t, InOrder(g, t, e, u, f)) < Length(g, t, Overlapped(g, t, e, u, f))
    ensures Length(g, t, InOrder(g, u, f, t, e)) < Length(g, t, Overlapped(g, t, e, u, f))
  {
    var s, id, x, y := g.server, FileOf(g, t).id, OpOf(g, t), OpOf(g, u);
    var at := OffsetOf(y);
    var behind := at + CursorMove(s, x, id, at, e);
    ReadFinds(s, x, id, at, e);
    ReadWriteSizes(s, id, x, at, e, y, behind, f);
    ReadWriteSizes(s, id, x, OffsetOf(x), e, y, at, f);
  }

  predicate BothWrite(g: State, t: nat, e: Choice, u: nat, f: Choice) {
    && ReadyPair(g, t, e, u, f) && StateidOf(OpOf(g, t)) == StateidOf(OpOf(g, u))
    && OpOf(g, t).Write? && OpOf(g, u).Write? && Size(g.server, FileOf(g, t).id) == 0
  }

  lemma InOrderLength(g: State, t: nat, e: Choice, u: nat, f: Choice)
    requires BothWrite(g, t, e, u, f)
    ensures Length(g, t, InOrder(g, t, e, u, f))
      == Max(OffsetOf(OpOf(g, t)) + Put(OpOf(g, t), e), OffsetOf(OpOf(g, u)) + Put(OpOf(g, u), f))
  {
    var x, y := OpOf(g, t), OpOf(g, u);
    TwoWriteSizes(g.server, FileOf(g, t).id, x, OffsetOf(x), e, y, OffsetOf(y), f);
  }

  lemma OverlappedLength(g: State, t: nat, e: Choice, u: nat, f: Choice)
    requires BothWrite(g, t, e, u, f)
    ensures Put(OpOf(g, t), e) > 0 && Put(OpOf(g, u), f) > 0
    ensures Length(g, t, Overlapped(g, t, e, u, f))
      == OffsetOf(OpOf(g, u)) + Put(OpOf(g, t), e) + Put(OpOf(g, u), f)
  {
    var s, id, x, y := g.server, FileOf(g, t).id, OpOf(g, t), OpOf(g, u);
    var at := OffsetOf(y);
    OverlappedSteps(g, t, e, u, f);
    WriteSizes(s, x, id, at, e);
    WriteSizes(TransferAt(s, x, id, at, e).server, y, id, at + CursorMove(s, x, id, at, e), f);
  }

  // Two writes in the order of their offsets: an empty file ends up longer than either order leaves it.
  lemma OverlapIsLongerAfterWrite(g: State, t: nat, e: Choice, u: nat, f: Choice)
    requires BothWrite(g, t, e, u, f) && OffsetOf(OpOf(g, t)) <= OffsetOf(OpOf(g, u))
    ensures Length(g, t, InOrder(g, t, e, u, f)) < Length(g, t, Overlapped(g, t, e, u, f))
    ensures Length(g, t, InOrder(g, u, f, t, e)) < Length(g, t, Overlapped(g, t, e, u, f))
  {
    OverlappedLength(g, t, e, u, f);
    InOrderLength(g, t, e, u, f);
    InOrderLength(g, u, f, t, e);
    assert Length(g, u, InOrder(g, u, f, t, e)) == Length(g, t, InOrder(g, u, f, t, e));
  }

  lemma OverlapFindsNothing(g: State, t: nat, e: Choice, u: nat, f: Choice)
    requires TellingPair(g, t, e, u, f) && OpOf(g, u).Read?
    ensures Overlapped(g, t, e, u, f).1.outcome == Succeed(ReadData([]))
    ensures InOrder(g, t, e, u, f).1.outcome == Succeed(ReadData([0]))
    ensures InOrder(g, u, f, t, e).0.outcome == Succeed(ReadData([0]))
  {
    ReadTells(g.server, FileOf(g, t).id, OpOf(g, t), e, OpOf(g, u), f);
  }

  lemma OverlapIsLonger(g: State, t: nat, e: Choice, u: nat, f: Choice)
    requires TellingPair(g, t, e, u, f) && OpOf(g, u).Write?
    ensures Length(g, t, InOrder(g, t, e, u, f)) < Length(g, t, Overlapped(g, t, e, u, f))
    ensures Length(g, t, InOrder(g, u, f, t, e)) < Length(g, t, Overlapped(g, t, e, u, f))
  {
    if OpOf(g, t).Read? {
      OverlapIsLongerAfterRead(g, t, e, u, f);
    } else {
      OverlapIsLongerAfterWrite(g, t, e, u, f);
    }
  }

  lemma OverlapDiffersByWrite(g: State, t: nat, e: Choice, u: nat, f: Choice)
    requires TellingPair(g, t, e, u, f) && OpOf(g, u).Write?
    ensures Play(g, Overlapping(t, e, u, f)).Some?
    ensures !EndsSerial(g, Play(g, Overlapping(t, e, u, f)).value, t, e, u, f)
  {
    OverlapRun(g, t, e, u, f);
    SerialTwo(g, t, e, u, f);
    SerialTwo(g, u, f, t, e);
    OverlapIsLonger(g, t, e, u, f);
  }

  lemma LastResult(c: Compound, data: OperationData)
    requires c.ops != []
    ensures var results := Advance(c, Succeed(data)).results;
      |results| == |c.results| + 1 && results[|c.results|] == OperationResult(NfsStatus.Ok, Some(data))
  {
  }

  lemma OverlapDiffersByRead(g: State, t: nat, e: Choice, u: nat, f: Choice)
    requires TellingPair(g, t, e, u, f) && OpOf(g, u).Read?
    ensures Play(g, Overlapping(t, e, u, f)).Some?
    ensures !EndsSerial(g, Play(g, Overlapping(t, e, u, f)).value, t, e, u, f)
  {
    OverlapRun(g, t, e, u, f);
    SerialTwo(g, t, e, u, f);
    SerialTwo(g, u, f, t, e);
    OverlapFindsNothing(g, t, e, u, f);
    LastResult(g.tasks[u].locals, ReadData([]));
    LastResult(g.tasks[u].locals, ReadData([0]));
    var end := Play(g, Overlapping(t, e, u, f)).value;
    assert Abs(end).compounds[u] == Advance(g.tasks[u].locals, Succeed(ReadData([])));
  }

  lemma SharedInOrder(g: State, t: nat, e: Choice, u: nat, f: Choice)
    requires ReadyPair(g, t, e, u, f) && StateidOf(OpOf(g, t)) == StateidOf(OpOf(g, u))
    requires InTellingOrder(OpOf(g, t), OpOf(g, u))
    ensures !AlwaysSerial(g, t, e, u, f)
  {
    var disk := Telling(FileOf(g, t).id, OpOf(g, t), OpOf(g, u));
    var g' := WithDisk(g, disk);
    OverlapCompletes(g', t, e, u, f);
    if OpOf(g, u).Write? {
      OverlapDiffersByWrite(g', t, e, u, f);
    } else {
      OverlapDiffersByRead(g', t, e, u, f);
    }
  }

  lemma AlwaysSerialSwap(g: State, t: nat, e: Choice, u: nat, f: Choice)
    requires ReadyPair(g, t, e, u, f) && AlwaysSerial(g, t, e, u, f)
    ensures AlwaysSerial(g, u, f, t, e)
  {
    forall disk: Disk, run: seq<Action> | Interleaves(WithDisk(g, disk), run, u, f, t, e)
      ensures EndsSerial(WithDisk(g, disk), Play(WithDisk(g, disk), run).value, u, f, t, e)
    {
      assert Interleaves(WithDisk(g, disk), run, t, e, u, f);
    }
  }

  //---------------------------------------------------------------------------
  // Exactly when
  //---------------------------------------------------------------------------

  // In any reachable state, two Reads or Writes that are ready to move bytes give a serial result in
  // every interleaving, whatever the files hold, exactly when their stateids differ.
  lemma SerialExactly(g: State, t: nat, e: Choice, u: nat, f: Choice)
    requires Inv(g) && ReadyPair(g, t, e, u, f)
    ensures AlwaysSerial(g, t, e, u, f) <==> StateidOf(OpOf(g, t)) != StateidOf(OpOf(g, u))
  {
    if StateidOf(OpOf(g, t)) != StateidOf(OpOf(g, u)) {
      ApartIsSerial(g, t, e, u, f);
    } else if InTellingOrder(OpOf(g, t), OpOf(g, u)) {
      SharedInOrder(g, t, e, u, f);
    } else {
      SharedInOrder(g, u, f, t, e);
      if AlwaysSerial(g, t, e, u, f) {
        AlwaysSerialSwap(g, t, e, u, f);
      }
    }
  }

  // A transfer that moves bytes does what its operation asks, whatever the files hold, exactly when the cursor
  // it finds is at its offset.
  lemma PlacementExact(s: Server, op: NfsOperation, id: FileId, at: nat, e: Choice)
    requires IsTransfer(op) && MovesBytes(op, e.transfer)
    ensures (forall disk: Disk ::
               TransferAt(s.(disk := disk), op, id, at, e) == TransferAt(s.(disk := disk), op, id, OffsetOf(op), e))
      <==> at == OffsetOf(op)
  {
    var off := OffsetOf(op);
    if at != off {
      // A file that ends just past the nearer of the two places.
      var disk: Disk := map[id := seq((if at < off then at else off) + 1, _ => 0)];
      var here, there := TransferAt(s.(disk := disk), op, id, at, e), TransferAt(s.(disk := disk), op, id, off, e);
      if op.Write? {
        assert |Contents(here.server.disk, id)| != |Contents(there.server.disk, id)|;
      } else {
        assert |here.outcome.result.result.value.bytes| != |there.outcome.result.result.value.bytes|;
      }
    }
  }

  //---------------------------------------------------------------------------
  // From a fresh server
  //---------------------------------------------------------------------------

  const ID: StateId := [0, 0, 0, 0, 0, 0, 0, 0, 0, 0, 0, 0, 0, 0, 0, 0]
  const FIRST := WriteOperation(ID, 0, 0, [1])
  const SECOND := WriteOperation(ID, 8, 0, [2])

  const OPEN := OpenOperation(0, ACCESS4_MODIFY, 0, [], Null([]))

  // Opening a file, then one write of a byte at offset 0 and one at offset 8 arriving together.
  function Prelude(e: Choice): seq<Action> {
    [Arrive([Open(OPEN)])] + (FourSteps(0, e) + [Arrive([Write(FIRST)]), Arrive([Write(SECOND)])])
  }

  function TwoWriters(): State {
    State(
      Server([], map[], map[ID := FileState([], ACCESS4_MODIFY, 0, Some(File(0, 0)))], map[], 1),
      map[], UNLOCKED, UNLOCKED,
      [Task(Compound([], None, NfsStatus.Ok, [OperationResult(NfsStatus.Ok, Some(OpenData(ID)))], false), Ready),
       Task(Begin([Write(FIRST)]), Ready),
       Task(Begin([Write(SECOND)]), Ready)])
  }

  predicate Obliging(e: Choice) {
    && e.random == ID && e.open([], false, true) == Some(0)
    && e.cloned && e.sought && e.transfer.Moved? && e.synced
  }

  function Arrived(): State {
    Start([], map[]).(tasks := [Task(Begin([Open(OPEN)]), Ready)])
  }

  function Granted(): State {
    At(Arrived().(stateidLock := Lock({}, Some(0), [])), 0, Holding)
  }

  lemma OpenGranted(e: Choice, rest: seq<Action>)
    ensures Play(Arrived(), [Go(0, e), Go(0, e)] + rest) == Play(Granted(), rest)
  {
    var g, g2 := Arrived(), Granted();
    var g1 := At(g.(stateidLock := Lock({}, None, [Waiter(0, Exclusive)])), 0, Waiting);
    assert Next(g, 0, e) == Some(g1) by {
      assert Enqueue(UNLOCKED, 0, Exclusive) == g1.stateidLock;
    }
    assert Next(g1, 0, e) == Some(g2) by {
      assert Grant(g1.stateidLock, 0, Exclusive) == g2.stateidLock;
      assert Next(g1, 0, e).value.tasks == g2.tasks;
    }
    PlayTwo(0, e, g, g1, g2, rest);
  }

  lemma OpenRun(e: Choice, rest: seq<Action>)
    requires Obliging(e)
    ensures Play(Arrived(), FourSteps(0, e) + rest) == Play(TwoWriters().(tasks := TwoWriters().tasks[..1]), rest)
  {
    FourAsTwos(0, e, rest);
    OpenGranted(e, [Go(0, e), Go(0, e)] + rest);
    OpenServed(e, rest);
  }

  lemma OpenServed(e: Choice, rest: seq<Action>)
    requires Obliging(e)
    ensures Play(Granted(), [Go(0, e), Go(0, e)] + rest)
      == Play(TwoWriters().(tasks := TwoWriters().tasks[..1]), rest)
  {
    var g2 := Granted();
    var served, outcome := TwoWriters().server, Succeed(OpenData(ID));
    assert ApplyOpen(g2.server, OPEN, e) == Step(served, outcome) by {
      assert Join([], []) == [];
    }
    var g3 := At(g2.(server := served), 0, Finishing(outcome));
    var g4 := TwoWriters().(tasks := TwoWriters().tasks[..1]);
    assert Next(g3, 0, e) == Some(g4) by {
      assert Drop(g3.handleLock, 0) == UNLOCKED && Drop(g3.stateidLock, 0) == UNLOCKED;
      assert Advance(Begin([Open(OPEN)]), outcome) == g4.tasks[0].locals;
      assert Next(g3, 0, e).value.tasks == [g4.tasks[0]] == g4.tasks;
    }
    PlayTwo(0, e, g2, g3, g4, rest);
  }

  lemma PreludeRuns(e: Choice, rest: seq<Action>)
    requires Obliging(e)
    ensures Play(Start([], map[]), Prelude(e) + rest) == Play(TwoWriters(), rest)
  {
    var second := [Arrive([Write(SECOND)])] + rest;
    var writes := [Arrive([Write(FIRST)])] + second;
    assert Prelude(e) + rest == [Arrive([Open(OPEN)])] + (FourSteps(0, e) + writes);
    PlayArrive(Start([], map[]), [Open(OPEN)], FourSteps(0, e) + writes);
    assert [] + [Task(Begin([Open(OPEN)]), Ready)] == Arrived().tasks;
    OpenRun(e, writes);
    var g, tasks := TwoWriters(), TwoWriters().tasks;
    PlayArrive(g.(tasks := tasks[..1]), [Write(FIRST)], second);
    assert tasks[..1] + [tasks[1]] == tasks[..2];
    PlayArrive(g.(tasks := tasks[..2]), [Write(SECOND)], rest);
    assert tasks[..2] + [tasks[2]] == tasks;
  }

  // Interleaved, on a fresh server, the two writes can leave ten bytes with nothing at offset 0;
  // run whole, in either order, they leave nine (SerialWrites).
  lemma InterleavingLosesAWrite(e: Choice)
    requires Obliging(e)
    ensures var end := Play(Start([], map[]), Prelude(e) + Overlapping(1, e, 2, e));
      && end.Some?
      && Contents(end.value.server.disk, 0) == [0, 0, 0, 0, 0, 0, 0, 0, 1, 2]
  {
    PreludeRuns(e, Overlapping(1, e, 2, e));
    OverlapRun(TwoWriters(), 1, e, 2, e);
    WriteNumbers();
  }

  lemma SerialWrites(e: Choice)
    requires Obliging(e)
    ensures var s := Run(Fresh([], map[]), [Event(Open(OPEN), None, e)]);
      var first, second := Event(Write(FIRST), None, e), Event(Write(SECOND), None, e);
      && Contents(After(After(s, first), second).disk, 0) == [1, 0, 0, 0, 0, 0, 0, 0, 2]
      && Contents(After(After(s, second), first).disk, 0) == [1, 0, 0, 0, 0, 0, 0, 0, 2]
  {
    WriteNumbers();
    var open := Event(Open(OPEN), None, e);
    assert [open][..0] == [];
    assert Run(Fresh([], map[]), [open]) == TwoWriters().server by {
      assert Join([], []) == [];
    }
  }

  lemma WriteNumbers()
    ensures WriteAt(WriteAt([], 0, [1]), 8, [2]) == [1, 0, 0, 0, 0, 0, 0, 0, 2]
    ensures WriteAt(WriteAt([], 8, [2]), 0, [1]) == [1, 0, 0, 0, 0, 0, 0, 0, 2]
    ensures WriteAt(WriteAt([], 8, [1]), 9, [2]) == [0, 0, 0, 0, 0, 0, 0, 0, 1, 2]
  {
    assert WriteAt([], 0, [1]) == [1];
    assert WriteAt([], 8, [2]) == [0, 0, 0, 0, 0, 0, 0, 0, 2];
    assert WriteAt([], 8, [1]) == [0, 0, 0, 0, 0, 0, 0, 0, 1];
  }
}
