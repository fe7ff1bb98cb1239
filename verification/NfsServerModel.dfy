/**
 The server itself: two tables updated in place, file cursors that seeks and
 transfers move, and the compound loop. Each handler is proved against
 ServerSpec, which has no cursors.
 */
module NfsServerModel {
  import opened Wrappers
  import opened Words
  import opened Protocol
  import opened ServerSpec
  import opened CompoundLaws

  class NfsServer {
    const exportRoot: Path
    // What the surroundings decide, one choice for each operation run.
    const env: nat -> Choice
    var handles: map<seq<byte>, Path>
    var stateids: map<StateId, FileState>
    var disk: Disk
    var cursors: map<nat, nat>
    var nextCursor: nat
    var tick: nat

    ghost function State(): Server
      reads this
    {
      Server(exportRoot, handles, stateids, disk, nextCursor)
    }

    constructor (exportRoot: Path, disk: Disk, env: nat -> Choice)
      ensures State() == Fresh(exportRoot, disk) && tick == 0
      ensures this.exportRoot == exportRoot && this.env == env
    {
      this.exportRoot := exportRoot;
      this.env := env;
      this.handles := map[];
      this.stateids := map[];
      this.disk := disk;
      this.cursors := map[];
      this.nextCursor := 0;
      this.tick := 0;
    }

    //-------------------------------------------------------------------------
    // Open files
    //-------------------------------------------------------------------------

    function Cursor(file: File): nat
      reads this
    {
      if file.cursor in cursors then cursors[file.cursor] else 0
    }

    method Seek(file: File, offset: nat)
      modifies this`cursors
      ensures Cursor(file) == offset
    {
      cursors := cursors[file.cursor := offset];
    }

    // One read at the cursor: at most `count` bytes, moving the cursor past them.
    method ReadFile(file: File, count: nat, t: Transfer) returns (r: Option<seq<byte>>)
      modifies this`cursors
      ensures r == match t
        case Moved(n) => Some(ReadAt(Contents(disk, file.id), old(Cursor(file)), Min(n, count)))
        case Stopped(_) => None
      ensures Cursor(file) == old(Cursor(file)) + (if r.Some? then |r.value| else 0)
    {
      if t.Stopped? {
        return None;
      }
      var at := Cursor(file);
      var buf := ReadAt(Contents(disk, file.id), at, Min(t.n, count));
      Seek(file, at + |buf|);
      return Some(buf);
    }

    // `write_all` at the cursor. A failure may have written a prefix.
    method WriteFile(file: File, data: seq<byte>, t: Transfer) returns (ok: bool)
      modifies this`cursors, this`disk
      ensures ok == t.Moved?
      ensures disk ==
        old(disk)[file.id := WriteAt(Contents(old(disk), file.id), old(Cursor(file)), Written(data, t))]
      ensures Cursor(file) == old(Cursor(file)) + |Written(data, t)|
    {
      var at := Cursor(file);
      disk := disk[file.id := WriteAt(Contents(disk, file.id), at, Written(data, t))];
      Seek(file, at + |Written(data, t)|);
      return t.Moved?;
    }

    //-------------------------------------------------------------------------
    // Handlers
    //-------------------------------------------------------------------------

    method HandleAccess(a: AccessOperation, fh: Option<NfsFileHandle>, e: Choice) returns (r: Outcome)
      ensures Step(State(), r) == Apply(old(State()), Access(a), fh, e)
      ensures r.Answer? && r.result.status == NfsStatus.Ok ==>
        && fh.Some? && fh.value.data in handles && e.metadata(handles[fh.value.data]).Some?
        && r.result.result.Some? && r.result.result.value.AccessData?
        && AllowsExactly(
             r.result.result.value.allowed, e.metadata(handles[fh.value.data]).value, e.uid, e.gid, a.access)
    {
      if fh.None? {
        return Fail(BadHandle);
      }
      if fh.value.data !in handles {
        return Fail(StaleFileHandle);
      }
      var metadata := e.metadata(handles[fh.value.data]);
      if metadata.None? {
        return Fail(NoEnt);
      }
      var m := metadata.value;
      // The rights are distinct bits, so adding one sets it.
      var allowed: u32 := 0;
      if e.uid == m.uid {
        if HasBit(m.mode, 256) { allowed := allowed + ACCESS4_READ; }
        if HasBit(m.mode, 128) { allowed := allowed + (ACCESS4_MODIFY + ACCESS4_EXTEND); }
        if HasBit(m.mode, 64) { allowed := allowed + ACCESS4_EXECUTE; }
      } else if e.gid == m.gid {
        if HasBit(m.mode, 32) { allowed := allowed + ACCESS4_READ; }
        if HasBit(m.mode, 16) { allowed := allowed + (ACCESS4_MODIFY + ACCESS4_EXTEND); }
        if HasBit(m.mode, 8) { allowed := allowed + ACCESS4_EXECUTE; }
      } else {
        if HasBit(m.mode, 4) { allowed := allowed + ACCESS4_READ; }
        if HasBit(m.mode, 2) { allowed := allowed + (ACCESS4_MODIFY + ACCESS4_EXTEND); }
        if HasBit(m.mode, 1) { allowed := allowed + ACCESS4_EXECUTE; }
      }
      assert allowed == GrantedAccess(m, e.uid, e.gid);
      AccessExact(m, e.uid, e.gid, a.access);
      return Succeed(AccessData(BitAnd(allowed, a.access)));
    }

    method HandleClose(a: CloseOperation) returns (r: Outcome)
      modifies this`stateids
      ensures Step(State(), r) == ApplyClose(old(State()), a.openStateid)
    {
      if a.openStateid in stateids {
        stateids := stateids - {a.openStateid};
        return Answer(OperationResult(NfsStatus.Ok, None));
      }
      return Fail(BadStateid);
    }

    method HandleCommit(a: CommitOperation, fh: Option<NfsFileHandle>, e: Choice) returns (r: Outcome)
      ensures Step(State(), r) == Apply(old(State()), Commit(a), fh, e)
    {
      if fh.None? {
        return Fail(BadHandle);
      }
      if fh.value.data !in handles {
        return Fail(StaleFileHandle);
      }
      if !e.openForSync(handles[fh.value.data]) {
        return Fail(IoError);
      }
      if !e.synced {
        return Abort;
      }
      return Answer(OperationResult(NfsStatus.Ok, None));
    }

    method HandleCreate(a: CreateOperation, fh: Option<NfsFileHandle>, e: Choice) returns (r: Outcome)
      modifies this`handles, this`disk
      ensures Step(State(), r) == Apply(old(State()), Create(a), fh, e)
    {
      if fh.None? {
        return Fail(BadHandle);
      }
      if fh.value.data !in handles {
        return Fail(StaleFileHandle);
      }
      var newPath := Join(handles[fh.value.data], a.objectName);
      if a.objectType == NF4REG {
        var created := e.createFile(newPath);
        if created.None? {
          return Fail(IoError);
        }
        disk := disk[created.value := []];
      } else if a.objectType == NF4DIR {
        if !e.createDir(newPath) {
          return Fail(IoError);
        }
      } else {
        return Fail(BadType);
      }
      handles := handles[e.random := newPath];
      return Succeed(GetFhData(NfsFileHandle(e.random)));
    }

    method HandleGetAttr(a: GetAttrOperation, fh: Option<NfsFileHandle>, e: Choice) returns (r: Outcome)
      ensures Step(State(), r) == Apply(old(State()), GetAttr(a), fh, e)
    {
      if fh.None? {
        return Fail(BadHandle);
      }
      if fh.value.data !in handles {
        return Fail(StaleFileHandle);
      }
      var metadata := e.metadata(handles[fh.value.data]);
      if metadata.None? {
        return Fail(NoEnt);
      }
      return Succeed(GetAttrData(metadata.value.attributes));
    }

    // The new handle is never entered in the table.
    method HandleGetFh(e: Choice) returns (r: Outcome)
      ensures Step(State(), r) == Apply(old(State()), GetFh(()), None, e)
    {
      return Succeed(GetFhData(NfsFileHandle(e.random)));
    }

    method HandleLookup(a: LookupOperation, fh: Option<NfsFileHandle>, e: Choice) returns (r: Outcome)
      modifies this`handles
      ensures Step(State(), r) == Apply(old(State()), Lookup(a), fh, e)
    {
      if fh.None? {
        return Fail(BadHandle);
      }
      if fh.value.data !in handles {
        return Fail(StaleFileHandle);
      }
      var path := Join(handles[fh.value.data], a.objectName);
      if !e.present(path) {
        return Fail(NoEnt);
      }
      handles := handles[e.random := path];
      return Succeed(GetFhData(NfsFileHandle(e.random)));
    }

    method HandleOpen(a: OpenOperation, e: Choice) returns (r: Outcome)
      modifies this`stateids, this`nextCursor, this`cursors
      ensures Step(State(), r) == ApplyOpen(old(State()), a, e)
      ensures r.Answer?
      ensures r.result.status == NfsStatus.Ok ==>
        && r.result.result.Some? && r.result.result.value.OpenData?
        && var id := r.result.result.value.stateid;
        && id in stateids && stateids == old(stateids)[id := stateids[id]]
        && stateids[id].path == Join(exportRoot, a.openClaim.path)
        && stateids[id].openMode == a.shareAccess && stateids[id].seqid == a.seqid
        && stateids[id].file.Some? && stateids[id].file.value.cursor == old(nextCursor)
      ensures r.result.status != NfsStatus.Ok ==>
        && r.result == OperationResult(if a.openClaim.Null? then IoError else Error, None)
        && State() == old(State())
    {
      if !a.openClaim.Null? {
        return Fail(Error);
      }
      var fullPath := Join(exportRoot, a.openClaim.path);
      var target := e.open(fullPath, HasBit(a.shareAccess, ACCESS4_READ),
                           HasBit(a.shareAccess, ACCESS4_MODIFY) || HasBit(a.shareAccess, ACCESS4_EXTEND));
      if target.None? {
        return Fail(IoError);
      }
      var file := File(target.value, nextCursor);
      nextCursor := nextCursor + 1;
      Seek(file, 0);
      stateids := stateids[e.random := FileState(fullPath, a.shareAccess, a.seqid, Some(file))];
      return Succeed(OpenData(e.random));
    }

    // Seek to the offset, then read at the cursor.
    method HandleRead(a: ReadOperation, e: Choice) returns (r: Outcome)
      modifies this`cursors
      ensures Step(State(), r) == ApplyTransfer(old(State()), Read(a), e)
    {
      if a.stateid !in stateids {
        return Fail(BadStateid);
      }
      var state := stateids[a.stateid];
      if state.file.None? {
        return Fail(IoError);
      }
      if !e.cloned || !e.sought {
        return Abort;
      }
      Seek(state.file.value, a.offset);
      var buf := ReadFile(state.file.value, a.count, e.transfer);
      if buf.None? {
        return Fail(IoError);
      }
      return Succeed(ReadData(buf.value));
    }

    // Seek to the offset, then write at the cursor, then sync when asked to.
    method HandleWrite(a: WriteOperation, e: Choice) returns (r: Outcome)
      modifies this`cursors, this`disk
      ensures Step(State(), r) == ApplyTransfer(old(State()), Write(a), e)
    {
      if a.stateid !in stateids {
        return Fail(BadStateid);
      }
      var state := stateids[a.stateid];
      if state.file.None? {
        return Fail(IoError);
      }
      if !e.cloned || !e.sought {
        return Abort;
      }
      Seek(state.file.value, a.offset);
      var ok := WriteFile(state.file.value, a.data, e.transfer);
      if !ok {
        return Fail(IoError);
      }
      if a.stable != 0 && !e.synced {
        return Abort;
      }
      return Succeed(WriteData(Truncate32(|a.data|)));
    }

    //-------------------------------------------------------------------------
    // Compounds
    //-------------------------------------------------------------------------

    method Dispatch(op: NfsOperation, fh: Option<NfsFileHandle>, e: Choice) returns (r: Outcome)
      modifies this`handles, this`stateids, this`disk, this`cursors, this`nextCursor
      ensures Step(State(), r) == Apply(old(State()), op, fh, e)
    {
      match op {
        case Access(a) => r := HandleAccess(a, fh, e);
        case Close(a) => r := HandleClose(a);
        case Commit(a) => r := HandleCommit(a, fh, e);
        case Create(a) => r := HandleCreate(a, fh, e);
        case GetAttr(a) => r := HandleGetAttr(a, fh, e);
        case GetFh(_) => r := HandleGetFh(e);
        case Lookup(a) => r := HandleLookup(a, fh, e);
        case Open(a) => r := HandleOpen(a, e);
        case Read(a) => r := HandleRead(a, e);
        case Write(a) => r := HandleWrite(a, e);
        case _ => r := Fail(Error);
      }
    }

    // The loop over the operations, up to the first that is not answered Ok or whose handler fails.
    method RunOperations(operations: seq<NfsOperation>)
      returns (failed: bool, currentStatus: NfsStatus, results: seq<OperationResult>)
      modifies this
      ensures var ran := Execute(old(State()), Begin(operations), env, old(tick));
        && State() == ran.server && tick == ran.tick && failed == ran.compound.aborted
        && (!failed ==> currentStatus == ran.compound.status && results == ran.compound.results)
    {
      failed, currentStatus, results := false, NfsStatus.Ok, [];
      var currentFh: Option<NfsFileHandle> := None;
      var i := 0;
      ghost var c := Begin(operations);
      ghost var goal := Execute(State(), c, env, tick);
      while i < |operations|
        invariant i <= |operations|
        invariant c == Compound(operations[i..], currentFh, currentStatus, results, false)
        invariant goal == Execute(State(), c, env, tick)
      {
        if currentStatus != NfsStatus.Ok {
          break;
        }
        var op := operations[i];
        ghost var before := State();
        var outcome := Dispatch(op, currentFh, env(tick));
        ExecuteStep(before, c, env, tick, State(), outcome);
        c := Advance(c, outcome);
        tick := tick + 1;
        if outcome.Abort? {
          failed := true;
          return;
        }
        var result := outcome.result;
        if op.GetFh? || (op.Lookup? && result.status == NfsStatus.Ok) {
          if result.result.Some? && result.result.value.GetFhData? {
            currentFh := Some(result.result.value.handle);
          }
        }
        currentStatus := result.status;
        results := results + [result];
        i := i + 1;
      }
    }

    // Operations run in order, each on the tables and filehandle the ones before it left, until one
    // is not answered Ok. A handler's error ends the compound without a response; otherwise the
    // response has the request's tag, one result for each operation run, and the last one's status.
    method HandleCompound(request: CompoundRequest)
      returns (r: Result<CompoundResponse>, ghost servers: seq<Server>, ghost outcomes: seq<Outcome>)
      modifies this
      ensures var ran := Execute(old(State()), Begin(request.operations), env, old(tick));
        State() == ran.server && tick == ran.tick && r == Respond(ran.compound, request.tag)
      ensures Traces(Acting(env), old(State()), request.operations, old(tick), servers, outcomes)
      ensures State() == servers[|outcomes|] && tick == old(tick) + |outcomes|
      ensures r.Err? <==> outcomes != [] && outcomes[|outcomes| - 1].Abort?
      ensures r.Ok? ==>
        && r.value.tag == request.tag && |r.value.results| == |outcomes|
        && (forall i :: 0 <= i < |outcomes| ==> outcomes[i] == Answer(r.value.results[i]))
        && (forall i :: 0 <= i < |r.value.results| - 1 ==> r.value.results[i].status == NfsStatus.Ok)
        && (r.value.results == [] ==> r.value.status == NfsStatus.Ok)
        && (r.value.results != [] ==> r.value.status == r.value.results[|r.value.results| - 1].status)
    {
      var failed, status, results := RunOperations(request.operations);
      r := if failed then Err else Result.Ok(CompoundResponse(request.tag, status, results));
      servers, outcomes := CompoundTrace(old(State()), request, env, old(tick));
      ResponseShape(outcomes, request.tag, r);
    }
  }
}
