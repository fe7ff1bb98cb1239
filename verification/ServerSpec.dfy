/**
 What each NFS operation and each compound does to the server's tables and to
 file contents, with no locks and no file cursors: Read and Write act at their
 offset. NfsServer is the imperative server proved against it, and Machine the
 concurrent one.
 */
module ServerSpec {
  import opened Wrappers
  import opened Words
  import opened Protocol

  //---------------------------------------------------------------------------
  // Files and paths
  //---------------------------------------------------------------------------

  type Path = seq<byte>

  // Which file the operating system opened. Several paths may lead to one file.
  type FileId = nat

  const SLASH: byte := 47

  // `Path::join`: an absolute name replaces the base.
  function Join(base: Path, name: Path): Path {
    if name != [] && name[0] == SLASH then name
    else if base == [] || base[|base| - 1] == SLASH then base + name
    else base + [SLASH] + name
  }

  type Disk = map<FileId, seq<byte>>

  function Contents(disk: Disk, id: FileId): seq<byte> {
    if id in disk then disk[id] else []
  }

  function Min(a: nat, b: nat): nat {
    if a < b then a else b
  }

  // At most n of the bytes from a position on.
  function ReadAt(content: seq<byte>, at: nat, n: nat): seq<byte> {
    if at >= |content| then [] else content[at..at + Min(n, |content| - at)]
  }

  // Overwriting from a position on. A gap before it reads as zeros; writing nothing changes nothing.
  function WriteAt(content: seq<byte>, at: nat, data: seq<byte>): seq<byte> {
    if data == [] then content
    else
      var padded := if |content| < at then content + seq(at - |content|, _ => 0) else content;
      var end := at + |data|;
      padded[..at] + data + (if end < |padded| then padded[end..] else [])
  }

  //---------------------------------------------------------------------------
  // What the surroundings decide
  //---------------------------------------------------------------------------

  // The attributes a reply copies out of the metadata are taken as given.
  datatype Metadata = Metadata(mode: u32, uid: u32, gid: u32, attributes: NfsFileAttributes)

  // How far a read or write gets, and whether it reports success.
  datatype Transfer = Moved(n: nat) | Stopped(n: nat)

  // Everything one operation may ask of the random generator and the operating system.
  datatype Choice = Choice(
    random: StateId,
    uid: u32,
    gid: u32,
    metadata: Path -> Option<Metadata>,
    open: (Path, bool, bool) -> Option<FileId>,
    openForSync: Path -> bool,
    createFile: Path -> Option<FileId>,
    createDir: Path -> bool,
    present: Path -> bool,
    cloned: bool,
    sought: bool,
    transfer: Transfer,
    synced: bool)

  //---------------------------------------------------------------------------
  // Server state
  //---------------------------------------------------------------------------

  // An open file. Clones of a descriptor share its cursor.
  datatype File = File(id: FileId, cursor: nat)

  datatype FileState = FileState(path: Path, openMode: u32, seqid: u32, file: Option<File>)

  datatype Server = Server(
    root: Path,
    handles: map<seq<byte>, Path>,
    stateids: map<StateId, FileState>,
    disk: Disk,
    nextCursor: nat)

  function Fresh(root: Path, disk: Disk): Server {
    Server(root, map[], map[], disk, 0)
  }

  // A handler's reply, or the error its `?` propagates.
  datatype Outcome = Answer(result: OperationResult) | Abort

  datatype Step = Step(server: Server, outcome: Outcome)

  function Fail(status: NfsStatus): Outcome {
    Answer(OperationResult(status, None))
  }

  function Succeed(data: OperationData): Outcome {
    Answer(OperationResult(NfsStatus.Ok, Some(data)))
  }

  //---------------------------------------------------------------------------
  // Operations on the current filehandle
  //---------------------------------------------------------------------------

  // The execute bit of the first permission class that applies: owner, group or others.
  function ClassBit(m: Metadata, uid: u32, gid: u32): (k: nat)
    ensures k > 0
  {
    if uid == m.uid then 64 else if gid == m.gid then 8 else 1
  }

  // The rights that class grants.
  function GrantedAccess(m: Metadata, uid: u32, gid: u32): u32 {
    var k := ClassBit(m, uid, gid);
    Rights(HasBit(m.mode, 4 * k), HasBit(m.mode, 2 * k), HasBit(m.mode, k))
  }

  function Rights(read: bool, write: bool, execute: bool): u32 {
    (if read then ACCESS4_READ else 0)
    + (if write then ACCESS4_MODIFY + ACCESS4_EXTEND else 0)
    + (if execute then ACCESS4_EXECUTE else 0)
  }

  function AllowedAccess(m: Metadata, uid: u32, gid: u32, requested: u32): u32 {
    BitAnd(GrantedAccess(m, uid, gid), requested)
  }

  // Whether the class that applies grants one right.
  predicate Grants(m: Metadata, uid: u32, gid: u32, right: nat) {
    var k := ClassBit(m, uid, gid);
    || (right == ACCESS4_READ && HasBit(m.mode, 4 * k))
    || ((right == ACCESS4_MODIFY || right == ACCESS4_EXTEND) && HasBit(m.mode, 2 * k))
    || (right == ACCESS4_EXECUTE && HasBit(m.mode, k))
  }

  lemma SmallPowers(k: nat)
    ensures Pow2(0) == 1 && Pow2(1) == 2 && Pow2(2) == 4 && Pow2(3) == 8 && Pow2(4) == 16 && Pow2(5) == 32
    ensures k > 5 ==> Pow2(k) >= 64
  {
    assert Pow2(6) == 64;
    if k > 5 {
      Pow2Grows(6, k);
    }
  }

  lemma RightsBits(read: bool, write: bool, execute: bool, k: nat)
    ensures HasBit(Rights(read, write, execute), Pow2(k)) <==>
      (k == 0 && read) || ((k == 2 || k == 3) && write) || (k == 5 && execute)
  {
    var x := Rights(read, write, execute);
    SmallPowers(k);
    if k > 5 {
      DivRange(x, Pow2(k), 0);
    } else if k == 0 {
      assert HasBit(x, 1) <==> read;
    } else if k == 1 {
      assert !HasBit(x, 2);
    } else if k == 2 {
      assert HasBit(x, 4) <==> write;
    } else if k == 3 {
      assert HasBit(x, 8) <==> write;
    } else if k == 4 {
      assert !HasBit(x, 16);
    } else {
      assert HasBit(x, 32) <==> execute;
    }
  }

  lemma GrantedBits(m: Metadata, uid: u32, gid: u32, k: nat)
    ensures HasBit(GrantedAccess(m, uid, gid), Pow2(k)) <==> Grants(m, uid, gid, Pow2(k))
  {
    var c := ClassBit(m, uid, gid);
    SmallPowers(k);
    RightsBits(HasBit(m.mode, 4 * c), HasBit(m.mode, 2 * c), HasBit(m.mode, c), k);
  }

  // A right is allowed exactly when it was requested and the permission class that applies grants it.
  ghost predicate AllowsExactly(allowed: u32, m: Metadata, uid: u32, gid: u32, requested: u32) {
    forall k: nat ::
      HasBit(allowed, Pow2(k)) <==> HasBit(requested, Pow2(k)) && Grants(m, uid, gid, Pow2(k))
  }

  // What Access answers, bit by bit.
  lemma AccessExact(m: Metadata, uid: u32, gid: u32, requested: u32)
    ensures AllowsExactly(AllowedAccess(m, uid, gid, requested), m, uid, gid, requested)
  {
    forall k: nat
      ensures HasBit(AllowedAccess(m, uid, gid, requested), Pow2(k))
        <==> HasBit(requested, Pow2(k)) && Grants(m, uid, gid, Pow2(k))
    {
      BitAndExact(GrantedAccess(m, uid, gid), requested, k);
      GrantedBits(m, uid, gid, k);
    }
  }

  predicate UsesHandle(op: NfsOperation) {
    op.Access? || op.Commit? || op.Create? || op.GetAttr? || op.Lookup?
  }

  // A new handle for a path: Create and Lookup.
  function AddHandle(s: Server, handle: seq<byte>, path: Path): Step {
    Step(s.(handles := s.handles[handle := path]), Succeed(GetFhData(NfsFileHandle(handle))))
  }

  function ApplyCreate(s: Server, a: CreateOperation, path: Path, e: Choice): Step {
    if a.objectType == NF4REG then
      match e.createFile(path)
      case None => Step(s, Fail(IoError))
      case Some(id) => AddHandle(s.(disk := s.disk[id := []]), e.random, path)
    else if a.objectType == NF4DIR then
      if e.createDir(path) then AddHandle(s, e.random, path) else Step(s, Fail(IoError))
    else Step(s, Fail(BadType))
  }

  function ApplyOnPath(s: Server, op: NfsOperation, path: Path, e: Choice): Step
    requires UsesHandle(op)
  {
    match op
    case Access(a) =>
      (match e.metadata(path)
       case None => Step(s, Fail(NoEnt))
       case Some(m) => Step(s, Succeed(AccessData(AllowedAccess(m, e.uid, e.gid, a.access)))))
    case Commit(_) =>
      if !e.openForSync(path) then Step(s, Fail(IoError))
      else if !e.synced then Step(s, Abort)
      else Step(s, Answer(OperationResult(NfsStatus.Ok, None)))
    case Create(a) => ApplyCreate(s, a, Join(path, a.objectName), e)
    case GetAttr(_) =>
      (match e.metadata(path)
       case None => Step(s, Fail(NoEnt))
       case Some(m) => Step(s, Succeed(GetAttrData(m.attributes))))
    case Lookup(a) =>
      var found := Join(path, a.objectName);
      if e.present(found) then AddHandle(s, e.random, found) else Step(s, Fail(NoEnt))
  }

  //---------------------------------------------------------------------------
  // Operations on stateids
  //---------------------------------------------------------------------------

  function ApplyOpen(s: Server, a: OpenOperation, e: Choice): Step {
    match a.openClaim
    case Null(name) =>
      var path := Join(s.root, name);
      var read := HasBit(a.shareAccess, ACCESS4_READ);
      var write := HasBit(a.shareAccess, ACCESS4_MODIFY) || HasBit(a.shareAccess, ACCESS4_EXTEND);
      (match e.open(path, read, write)
       case None => Step(s, Fail(IoError))
       case Some(id) =>
         var state := FileState(path, a.shareAccess, a.seqid, Some(File(id, s.nextCursor)));
         Step(s.(stateids := s.stateids[e.random := state], nextCursor := s.nextCursor + 1),
              Succeed(OpenData(e.random))))
    case _ => Step(s, Fail(Error))
  }

  function ApplyClose(s: Server, id: StateId): Step {
    if id in s.stateids
    then Step(s.(stateids := s.stateids - {id}), Answer(OperationResult(NfsStatus.Ok, None)))
    else Step(s, Fail(BadStateid))
  }

  predicate IsTransfer(op: NfsOperation) {
    op.Read? || op.Write?
  }

  function StateidOf(op: NfsOperation): StateId
    requires IsTransfer(op)
  {
    if op.Read? then op.read.stateid else op.write.stateid
  }

  function OffsetOf(op: NfsOperation): nat
    requires IsTransfer(op)
  {
    if op.Read? then op.read.offset else op.write.offset
  }

  // The bytes of a write that reach the file.
  function Written(data: seq<byte>, t: Transfer): seq<byte> {
    match t
    case Moved(_) => data
    case Stopped(n) => data[..Min(n, |data|)]
  }

  // A read or write on an open file, at a position.
  function TransferAt(s: Server, op: NfsOperation, id: FileId, at: nat, e: Choice): Step
    requires IsTransfer(op)
  {
    match op
    case Read(a) =>
      (match e.transfer
       case Moved(n) => Step(s, Succeed(ReadData(ReadAt(Contents(s.disk, id), at, Min(n, a.count)))))
       case Stopped(_) => Step(s, Fail(IoError)))
    case Write(a) =>
      var s' := s.(disk := s.disk[id := WriteAt(Contents(s.disk, id), at, Written(a.data, e.transfer))]);
      if e.transfer.Stopped? then Step(s', Fail(IoError))
      else if a.stable != 0 && !e.synced then Step(s', Abort)
      else Step(s', Succeed(WriteData(Truncate32(|a.data|))))
  }

  // How far a transfer moves the cursor.
  function CursorMove(s: Server, op: NfsOperation, id: FileId, at: nat, e: Choice): nat
    requires IsTransfer(op)
  {
    match op
    case Read(a) => if e.transfer.Moved? then |ReadAt(Contents(s.disk, id), at, Min(e.transfer.n, a.count))| else 0
    case Write(a) => |Written(a.data, e.transfer)|
  }

  function ApplyTransfer(s: Server, op: NfsOperation, e: Choice): Step
    requires IsTransfer(op)
  {
    if StateidOf(op) !in s.stateids then Step(s, Fail(BadStateid))
    else
      match s.stateids[StateidOf(op)].file
      case None => Step(s, Fail(IoError))
      case Some(file) =>
        if !e.cloned || !e.sought then Step(s, Abort)
        else TransferAt(s, op, file.id, OffsetOf(op), e)
  }

  //---------------------------------------------------------------------------
  // One operation
  //---------------------------------------------------------------------------

  function Apply(s: Server, op: NfsOperation, fh: Option<NfsFileHandle>, e: Choice): Step {
    if UsesHandle(op) then
      match fh
      case None => Step(s, Fail(BadHandle))
      case Some(h) =>
        if h.data !in s.handles then Step(s, Fail(StaleFileHandle))
        else ApplyOnPath(s, op, s.handles[h.data], e)
    else if IsTransfer(op) then ApplyTransfer(s, op, e)
    else
      match op
      case Close(a) => ApplyClose(s, a.openStateid)
      case Open(a) => ApplyOpen(s, a, e)
      case GetFh(_) => Step(s, Succeed(GetFhData(NfsFileHandle(e.random))))
      case _ => Step(s, Fail(Error))
  }

  //---------------------------------------------------------------------------
  // Compounds
  //---------------------------------------------------------------------------

  // The local variables of a compound: the operations still to run, the current filehandle, the
  // status, the results so far, and whether a handler's error has ended it without a response.
  datatype Compound = Compound(
    ops: seq<NfsOperation>,
    fh: Option<NfsFileHandle>,
    status: NfsStatus,
    results: seq<OperationResult>,
    aborted: bool)

  function Begin(ops: seq<NfsOperation>): Compound {
    Compound(ops, None, NfsStatus.Ok, [], false)
  }

  predicate Finished(c: Compound) {
    c.aborted || c.ops == [] || c.status != NfsStatus.Ok
  }

  // GetFh and a successful Lookup set the current filehandle; Create does not.
  function NextFh(op: NfsOperation, fh: Option<NfsFileHandle>, r: OperationResult): Option<NfsFileHandle> {
    if (op.GetFh? || (op.Lookup? && r.status == NfsStatus.Ok)) && r.result.Some? && r.result.value.GetFhData?
    then Some(r.result.value.handle)
    else fh
  }

  function Advance(c: Compound, o: Outcome): Compound
    requires c.ops != []
  {
    match o
    case Abort => c.(aborted := true)
    case Answer(r) => Compound(c.ops[1..], NextFh(c.ops[0], c.fh, r), r.status, c.results + [r], false)
  }

  datatype Ran = Ran(server: Server, compound: Compound, tick: nat)

  // Running a compound to its end, drawing one choice per operation.
  function Execute(s: Server, c: Compound, env: nat -> Choice, tick: nat): Ran
    decreases |c.ops|, !c.aborted
  {
    if Finished(c) then Ran(s, c, tick)
    else
      var step := Apply(s, c.ops[0], c.fh, env(tick));
      Execute(step.server, Advance(c, step.outcome), env, tick + 1)
  }

  lemma ExecuteStep(s: Server, c: Compound, env: nat -> Choice, tick: nat, s': Server, o: Outcome)
    requires !Finished(c) && Step(s', o) == Apply(s, c.ops[0], c.fh, env(tick))
    ensures Execute(s, c, env, tick) == Execute(s', Advance(c, o), env, tick + 1)
  {
  }

  function Respond(c: Compound, tag: seq<byte>): Result<CompoundResponse> {
    if c.aborted then Err else Result.Ok(CompoundResponse(tag, c.status, c.results))
  }

  //---------------------------------------------------------------------------
  // Histories: any sequence of operations, from any number of compounds
  //---------------------------------------------------------------------------

  datatype Event = Event(op: NfsOperation, fh: Option<NfsFileHandle>, choice: Choice)

  function After(s: Server, ev: Event): Server {
    Apply(s, ev.op, ev.fh, ev.choice).server
  }

  function Run(s: Server, events: seq<Event>): Server
    decreases |events|
  {
    if events == [] then s else After(Run(s, events[..|events| - 1]), events[|events| - 1])
  }
}
