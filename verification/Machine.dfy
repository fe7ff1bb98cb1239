/**
 The concurrent server: any number of compounds in progress, one fair
 reader/writer lock for each table, and each handler cut at the points where it
 awaits. A guard is held from the grant to the end of the handler.
 */
module Machine {
  import opened Wrappers
  import opened Words
  import opened Protocol
  import opened ServerSpec

  //---------------------------------------------------------------------------
  // Locks
  //---------------------------------------------------------------------------

  datatype Mode = Shared | Exclusive
  datatype LockId = HandleTable | StateidTable
  datatype Waiter = Waiter(task: nat, mode: Mode)

  // Requests queue in order, and only the first in the queue can be granted.
  datatype Lock = Lock(readers: set<nat>, writer: Option<nat>, queue: seq<Waiter>)

  const UNLOCKED := Lock({}, None, [])

  function Enqueue(k: Lock, t: nat, m: Mode): Lock {
    k.(queue := k.queue + [Waiter(t, m)])
  }

  predicate Grantable(k: Lock, t: nat, m: Mode) {
    k.queue != [] && k.queue[0] == Waiter(t, m) && k.writer.None? && (m.Exclusive? ==> k.readers == {})
  }

  function Grant(k: Lock, t: nat, m: Mode): Lock
    requires k.queue != []
  {
    if m.Shared? then Lock(k.readers + {t}, k.writer, k.queue[1..]) else Lock(k.readers, Some(t), k.queue[1..])
  }

  function Drop(k: Lock, t: nat): Lock {
    Lock(k.readers - {t}, if k.writer == Some(t) then None else k.writer, k.queue)
  }

  //---------------------------------------------------------------------------
  // Tasks
  //---------------------------------------------------------------------------

  datatype Pc =
    | Ready                                        // between operations
    | Waiting                                      // queued for the operation's lock
    | Holding                                      // lock granted, table not yet consulted
    | Upgrading(path: Path, handle: seq<byte>)     // still reading, queued to write the same table
    | Cloned(file: File)                           // about to seek
    | Sought(file: File)                           // about to transfer
    | Finishing(outcome: Outcome)                  // outcome decided, guards not yet dropped
    | Done

  // One compound in progress.
  datatype Task = Task(locals: Compound, pc: Pc)

  datatype State = State(
    server: Server,
    cursors: map<nat, nat>,
    handleLock: Lock,
    stateidLock: Lock,
    tasks: seq<Task>)

  function Start(root: Path, disk: Disk): State {
    State(Fresh(root, disk), map[], UNLOCKED, UNLOCKED, [])
  }

  // The lock a compound's next operation asks for first, if any.
  function LockFor(c: Compound): Option<(LockId, Mode)>
    requires c.ops != []
  {
    var op := c.ops[0];
    if UsesHandle(op) then (if c.fh.Some? then Some((HandleTable, Shared)) else None)
    else if IsTransfer(op) then Some((StateidTable, Shared))
    else if op.Open? || op.Close? then Some((StateidTable, Exclusive))
    else None
  }

  function LockOf(g: State, l: LockId): Lock {
    if l == HandleTable then g.handleLock else g.stateidLock
  }

  function WithLock(g: State, l: LockId, k: Lock): State {
    if l == HandleTable then g.(handleLock := k) else g.(stateidLock := k)
  }

  function At(g: State, t: nat, pc: Pc): State
    requires t < |g.tasks|
  {
    g.(tasks := g.tasks[t := g.tasks[t].(pc := pc)])
  }

  function CursorOf(g: State, file: File): nat {
    if file.cursor in g.cursors then g.cursors[file.cursor] else 0
  }

  //---------------------------------------------------------------------------
  // Steps
  //---------------------------------------------------------------------------

  // The operation takes effect in one step.
  function TakeEffect(g: State, t: nat, e: Choice): State
    requires t < |g.tasks| && g.tasks[t].locals.ops != []
  {
    var c := g.tasks[t].locals;
    var step := Apply(g.server, c.ops[0], c.fh, e);
    At(g.(server := step.server), t, Finishing(step.outcome))
  }

  // Create and Lookup that got as far as needing the write lock: the path of their new handle,
  // and the file a Create emptied.
  function NewPath(s: Server, c: Compound, e: Choice): Option<(Path, Disk)>
    requires c.ops != []
  {
    if c.fh.None? || c.fh.value.data !in s.handles then None
    else
      var parent := s.handles[c.fh.value.data];
      match c.ops[0]
      case Lookup(a) =>
        var path := Join(parent, a.objectName);
        if e.present(path) then Some((path, s.disk)) else None
      case Create(a) =>
        var path := Join(parent, a.objectName);
        if a.objectType == NF4REG && e.createFile(path).Some? then Some((path, s.disk[e.createFile(path).value := []]))
        else if a.objectType == NF4DIR && e.createDir(path) then Some((path, s.disk))
        else None
      case _ => None
  }

  // The first step under the lock.
  function Consult(g: State, t: nat, e: Choice): State
    requires t < |g.tasks| && g.tasks[t].locals.ops != []
  {
    var c := g.tasks[t].locals;
    var op := c.ops[0];
    if IsTransfer(op) && StateidOf(op) in g.server.stateids && g.server.stateids[StateidOf(op)].file.Some? && e.cloned
    then At(g, t, Cloned(g.server.stateids[StateidOf(op)].file.value))
    else
      match NewPath(g.server, c, e)
      case Some((path, disk)) =>
        At(g.(server := g.server.(disk := disk), handleLock := Enqueue(g.handleLock, t, Exclusive)),
           t, Upgrading(path, e.random))
      case None => TakeEffect(g, t, e)
  }

  // The transfer happens wherever the shared cursor now is.
  function TransferNow(g: State, t: nat, file: File, e: Choice): State
    requires t < |g.tasks| && g.tasks[t].locals.ops != [] && IsTransfer(g.tasks[t].locals.ops[0])
  {
    var op := g.tasks[t].locals.ops[0];
    var at := CursorOf(g, file);
    var step := TransferAt(g.server, op, file.id, at, e);
    At(g.(server := step.server, cursors := g.cursors[file.cursor := at + CursorMove(g.server, op, file.id, at, e)]),
       t, Finishing(step.outcome))
  }

  // One step of one task; None when the task has to wait or is done.
  function Next(g: State, t: nat, e: Choice): Option<State>
    requires t < |g.tasks|
  {
    var c := g.tasks[t].locals;
    if g.tasks[t].pc.Done? then None
    else if g.tasks[t].pc.Ready? then
      if Finished(c) then Some(At(g, t, Done))
      else
        match LockFor(c)
        case None => Some(TakeEffect(g, t, e))
        case Some((l, m)) => Some(At(WithLock(g, l, Enqueue(LockOf(g, l), t, m)), t, Waiting))
    else if Finished(c) then None
    else
      match g.tasks[t].pc
      case Waiting =>
        (match LockFor(c)
         case None => None
         case Some((l, m)) =>
           if Grantable(LockOf(g, l), t, m) then Some(At(WithLock(g, l, Grant(LockOf(g, l), t, m)), t, Holding))
           else None)
      case Holding => Some(Consult(g, t, e))
      case Upgrading(path, handle) =>
        if !Grantable(g.handleLock, t, Exclusive) then None
        else
          var step := AddHandle(g.server, handle, path);
          var g' := g.(server := step.server, handleLock := Grant(g.handleLock, t, Exclusive));
          Some(At(g', t, Finishing(step.outcome)))
      case Cloned(file) =>
        if e.sought && IsTransfer(c.ops[0])
        then Some(At(g.(cursors := g.cursors[file.cursor := OffsetOf(c.ops[0])]), t, Sought(file)))
        else Some(TakeEffect(g, t, e.(cloned := true)))
      case Sought(file) => if IsTransfer(c.ops[0]) then Some(TransferNow(g, t, file, e)) else None
      case Finishing(o) =>
        Some(g.(handleLock := Drop(g.handleLock, t), stateidLock := Drop(g.stateidLock, t),
                tasks := g.tasks[t := Task(Advance(c, o), Ready)]))
  }

  //---------------------------------------------------------------------------
  // Runs
  //---------------------------------------------------------------------------

  datatype Action = Arrive(ops: seq<NfsOperation>) | Go(task: nat, choice: Choice)

  function Perform(g: State, a: Action): Option<State> {
    match a
    case Arrive(ops) => Some(g.(tasks := g.tasks + [Task(Begin(ops), Ready)]))
    case Go(t, e) => if t < |g.tasks| then Next(g, t, e) else None
  }

  // The state after a run, if every action of it could happen.
  function Play(g: State, run: seq<Action>): Option<State>
    decreases |run|
  {
    if run == [] then Some(g)
    else
      match Perform(g, run[0])
      case None => None
      case Some(g') => Play(g', run[1..])
  }
}
