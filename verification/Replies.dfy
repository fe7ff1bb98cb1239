/**
 What each operation answers and does, field by field and with the numbers of
 the protocol, on any server: the reply, the tables and the file contents.
 */
module Replies {
  import opened Wrappers
  import opened Words
  import opened Protocol
  import opened ServerSpec
  import opened FileHistory

  // A reply without data, and the server as it was.
  ghost predicate Refuses(s: Server, step: Step, status: NfsStatus) {
    step == Step(s, Answer(OperationResult(status, None)))
  }

  // A reply with data.
  ghost predicate Gives(o: Outcome, data: OperationData) {
    o == Answer(OperationResult(NfsStatus.Ok, Some(data)))
  }

  //---------------------------------------------------------------------------
  // Paths
  //---------------------------------------------------------------------------

  // An absolute name replaces the base, and a relative one comes after the base and one slash.
  lemma JoinExact(base: Path, name: Path)
    ensures name != [] && name[0] == 47 ==> Join(base, name) == name
    ensures name == [] || name[0] != 47 ==>
      exists dir: Path ::
        && Join(base, name) == dir + name
        && (dir == [] || dir[|dir| - 1] == 47)
        && (dir == base || (dir == base + [47] && base != [] && base[|base| - 1] != 47))
  {
    if name == [] || name[0] != 47 {
      var dir := if base == [] || base[|base| - 1] == 47 then base else base + [47];
      assert Join(base, name) == dir + name;
    }
  }

  //---------------------------------------------------------------------------
  // Operations without a filehandle or a transfer
  //---------------------------------------------------------------------------

  lemma CloseReply(s: Server, a: CloseOperation, fh: Option<NfsFileHandle>, e: Choice)
    ensures var step := Apply(s, Close(a), fh, e);
      if a.openStateid in s.stateids
      then step == Step(s.(stateids := s.stateids - {a.openStateid}), Answer(OperationResult(NfsStatus.Ok, None)))
      else Refuses(s, step, BadStateid)
  {
  }

  // GetFh answers a random handle and enters it nowhere; OpenConfirm and Lookupp answer Error.
  lemma OtherReplies(s: Server, op: NfsOperation, fh: Option<NfsFileHandle>, e: Choice)
    requires op.GetFh? || op.OpenConfirm? || op.Lookupp?
    ensures var step := Apply(s, op, fh, e);
      if op.GetFh? then step.server == s && Gives(step.outcome, GetFhData(NfsFileHandle(e.random)))
      else Refuses(s, step, Error)
  {
  }

  //---------------------------------------------------------------------------
  // Open
  //---------------------------------------------------------------------------

  lemma AndEven(x: nat, z: nat, y: nat)
    requires z % 2 == 0 && z / 2 == y
    ensures BitAnd(x, z) == 2 * BitAnd(x / 2, y)
  {
  }

  lemma AndOdd(x: nat, z: nat, y: nat)
    requires z % 2 == 1 && z / 2 == y
    ensures BitAnd(x, z) == 2 * BitAnd(x / 2, y) + x % 2
  {
  }

  // The masks the source tests the share access with.
  lemma MaskedBits(x: nat)
    ensures BitAnd(x, 1) != 0 <==> HasBit(x, 1)
    ensures BitAnd(x, 4 + 8) != 0 <==> HasBit(x, 4) || HasBit(x, 8)
  {
    AndOdd(x, 1, 0);
    AndEven(x, 12, 6);
    AndEven(x / 2, 6, 3);
    AndOdd(x / 2 / 2, 3, 1);
    AndOdd(x / 2 / 2 / 2, 1, 0);
    HalvedTwice(x);
  }

  lemma HalvedTwice(x: nat)
    ensures x / 2 / 2 == x / 4 && x / 2 / 2 / 2 == x / 8
  {
  }

  // What the system is asked for by an Open with a null claim: the file at the joined path, to read
  // when bit 1 is shared, and to write when bit 4 or bit 8 is.
  lemma OpenedFileExact(root: Path, ev: Event)
    requires ev.op.Open?
    ensures var a := ev.op.open;
      OpenedFile(root, ev) ==
        if a.openClaim.Null?
        then ev.choice.open(
          Join(root, a.openClaim.path), BitAnd(a.shareAccess, 1) != 0, BitAnd(a.shareAccess, 4 + 8) != 0)
        else None
  {
    MaskedBits(ev.op.open.shareAccess);
  }

  // A null claim that the system opens gives a stateid, and that stateid then stands for the file
  // the system opened. A refused one is an I/O error, and any other claim an error.
  lemma OpenReply(s: Server, ev: Event)
    requires ev.op.Open?
    ensures var step, a := Apply(s, ev.op, ev.fh, ev.choice), ev.op.open;
      match OpenedFile(s.root, ev)
      case None => Refuses(s, step, if a.openClaim.Null? then IoError else Error)
      case Some(file) =>
        && step.outcome.Answer? && step.outcome.result.status == NfsStatus.Ok
        && step.outcome.result.result.Some? && step.outcome.result.result.value.OpenData?
        && var id := step.outcome.result.result.value.stateid;
        && id == ev.choice.random && id in step.server.stateids
        && var state := step.server.stateids[id];
        && step.server == s.(stateids := s.stateids[id := state], nextCursor := s.nextCursor + 1)
        && state.path == Join(s.root, a.openClaim.path)
        && state.openMode == a.shareAccess && state.seqid == a.seqid
        && state.file == Some(File(file, s.nextCursor))
  {
  }

  //---------------------------------------------------------------------------
  // Read and Write
  //---------------------------------------------------------------------------

  // The content of one file became another, and nothing else changed.
  ghost predicate OnlyFile(s: Server, s': Server, id: FileId) {
    && s' == s.(disk := s'.disk)
    && forall f :: f != id ==> Contents(s'.disk, f) == Contents(s.disk, f)
  }

  // The bytes from an offset on: as many as asked for, as the system gives and as there are.
  ghost predicate Slice(buf: seq<byte>, content: seq<byte>, at: nat, n: nat, count: nat) {
    && |buf| <= n && |buf| <= count && (buf != [] ==> at + |buf| <= |content|)
    && (|buf| == n || |buf| == count || at + |buf| >= |content|)
    && forall k :: 0 <= k < |buf| ==> buf[k] == content[at + k]
  }

  // The first m bytes of the data at an offset, zeros in a gap before it, and the old bytes elsewhere.
  ghost predicate Overwritten(after: seq<byte>, before: seq<byte>, at: nat, data: seq<byte>, m: nat) {
    && m <= |data|
    && |after| == (if m == 0 || at + m <= |before| then |before| else at + m)
    && forall k :: 0 <= k < |after| ==>
         after[k] == if at <= k < at + m then data[k - at] else if k < |before| then before[k] else 0
  }

  // A Read on an open file that the system lets through, in terms of that file.
  ghost predicate ReadsFile(s: Server, a: ReadOperation, e: Choice, id: FileId, step: Step) {
    && step.server == s
    && match e.transfer
       case Stopped(_) => step.outcome == Answer(OperationResult(IoError, None))
       case Moved(n) =>
         && step.outcome.Answer? && step.outcome.result.status == NfsStatus.Ok
         && step.outcome.result.result.Some? && step.outcome.result.result.value.ReadData?
         && Slice(step.outcome.result.result.value.bytes, Contents(s.disk, id), a.offset, n, a.count)
  }

  // A Write on an open file that the system lets through, in terms of that file.
  ghost predicate WritesFile(s: Server, a: WriteOperation, e: Choice, id: FileId, step: Step) {
    && OnlyFile(s, step.server, id)
    && var before, after := Contents(s.disk, id), Contents(step.server.disk, id);
    match e.transfer
    case Stopped(n) =>
      && step.outcome == Answer(OperationResult(IoError, None))
      && Overwritten(after, before, a.offset, a.data, if n < |a.data| then n else |a.data|)
    case Moved(_) =>
      && Overwritten(after, before, a.offset, a.data, |a.data|)
      && if a.stable != 0 && !e.synced then step.outcome == Abort
         else Gives(step.outcome, WriteData(|a.data| % 0x1_0000_0000))
  }

  lemma WriteAtExact(content: seq<byte>, at: nat, data: seq<byte>, m: nat)
    requires m <= |data|
    ensures Overwritten(WriteAt(content, at, data[..m]), content, at, data, m)
  {
  }

  lemma ReadsFileReply(s: Server, a: ReadOperation, id: FileId, e: Choice)
    ensures ReadsFile(s, a, e, id, TransferAt(s, Read(a), id, a.offset, e))
  {
  }

  lemma WritesFileReply(s: Server, a: WriteOperation, id: FileId, e: Choice)
    ensures WritesFile(s, a, e, id, TransferAt(s, Write(a), id, a.offset, e))
  {
    var m := match e.transfer case Moved(_) => |a.data| case Stopped(n) => if n < |a.data| then n else |a.data|;
    assert Written(a.data, e.transfer) == a.data[..m];
    WriteAtExact(Contents(s.disk, id), a.offset, a.data, m);
  }

  // A Read or Write needs an open stateid with a file, and a clone and a seek that succeed; then it
  // acts on that file, and on no other.
  lemma TransferReply(s: Server, op: NfsOperation, fh: Option<NfsFileHandle>, e: Choice)
    requires IsTransfer(op)
    ensures var step, id := Apply(s, op, fh, e), if op.Read? then op.read.stateid else op.write.stateid;
      if id !in s.stateids then Refuses(s, step, BadStateid)
      else if s.stateids[id].file.None? then Refuses(s, step, IoError)
      else if !e.cloned || !e.sought then step == Step(s, Abort)
      else
        var file := s.stateids[id].file.value.id;
        if op.Read? then ReadsFile(s, op.read, e, file, step) else WritesFile(s, op.write, e, file, step)
  {
    var id := if op.Read? then op.read.stateid else op.write.stateid;
    if id in s.stateids && s.stateids[id].file.Some? && e.cloned && e.sought {
      var file := s.stateids[id].file.value.id;
      if op.Read? {
        ReadsFileReply(s, op.read, file, e);
      } else {
        WritesFileReply(s, op.write, file, e);
      }
    }
  }

  // After every history, the stateid an Open answers is in the table, bound to the file the system
  // opened, and a Read or Write through it acts on that file. An Open that gets no file answers an
  // error and leaves the server as it was.
  lemma OpenThenUse(root: Path, disk: Disk, events: seq<Event>, ev: Event, use: Event)
    requires ev.op.Open?
    ensures var s, s' := Run(Fresh(root, disk), events), Run(Fresh(root, disk), events + [ev]);
      var o := Apply(s, ev.op, ev.fh, ev.choice).outcome;
      match OpenedFile(root, ev)
      case None =>
        s' == s && o == Answer(OperationResult(if ev.op.open.openClaim.Null? then IoError else Error, None))
      case Some(file) =>
        && o.Answer? && o.result.status == NfsStatus.Ok
        && o.result.result.Some? && o.result.result.value.OpenData?
        && var id := o.result.result.value.stateid;
        && id in s'.stateids && s'.stateids[id].file.Some? && s'.stateids[id].file.value.id == file
        && var step := Apply(s', use.op, use.fh, use.choice);
        && (use.op.Read? && use.op.read.stateid == id && use.choice.cloned && use.choice.sought ==>
              ReadsFile(s', use.op.read, use.choice, file, step))
        && (use.op.Write? && use.op.write.stateid == id && use.choice.cloned && use.choice.sought ==>
              WritesFile(s', use.op.write, use.choice, file, step))
  {
    var s, all := Run(Fresh(root, disk), events), events + [ev];
    assert all[..|all| - 1] == events;
    TableIsBinding(root, disk, events, ev.choice.random);
    OpenReply(s, ev);
    if IsTransfer(use.op) {
      TransferReply(Run(Fresh(root, disk), all), use.op, use.fh, use.choice);
    }
  }

  //---------------------------------------------------------------------------
  // Operations on the current filehandle
  //---------------------------------------------------------------------------

  // The mode bits to read, write and execute of the class a user falls in.
  function ModeBits(m: Metadata, uid: u32, gid: u32): (bits: (nat, nat, nat))
    ensures bits.0 > 0 && bits.1 > 0 && bits.2 > 0
  {
    if uid == m.uid then (256, 128, 64) else if gid == m.gid then (32, 16, 8) else (4, 2, 1)
  }

  // Right 1 needs the read bit, rights 4 and 8 the write bit and right 32 the execute bit of the
  // class that applies; no other right is ever allowed, and none that was not asked for.
  ghost predicate AllowsRights(allowed: u32, m: Metadata, uid: u32, gid: u32, requested: u32) {
    var (read, write, execute) := ModeBits(m, uid, gid);
    forall k: nat :: HasBit(allowed, Pow2(k)) <==>
      && HasBit(requested, Pow2(k))
      && ((k == 0 && HasBit(m.mode, read)) || ((k == 2 || k == 3) && HasBit(m.mode, write))
          || (k == 5 && HasBit(m.mode, execute)))
  }

  lemma AllowedRights(m: Metadata, uid: u32, gid: u32, requested: u32)
    ensures AllowsRights(AllowedAccess(m, uid, gid, requested), m, uid, gid, requested)
  {
    AccessExact(m, uid, gid, requested);
    forall k: nat
      ensures Pow2(k) == 1 <==> k == 0
      ensures Pow2(k) == 4 <==> k == 2
      ensures Pow2(k) == 8 <==> k == 3
      ensures Pow2(k) == 32 <==> k == 5
    {
      SmallPowers(k);
    }
  }

  // A new handle for a path, entered in the table and answered.
  ghost predicate Enters(s: Server, step: Step, handle: seq<byte>, path: Path) {
    && step.server == s.(handles := s.handles[handle := path])
    && Gives(step.outcome, GetFhData(NfsFileHandle(handle)))
  }

  // Without a filehandle, or with one that does not resolve, nothing happens.
  lemma UnresolvedReplies(s: Server, op: NfsOperation, fh: Option<NfsFileHandle>, e: Choice)
    requires op.Access? || op.Commit? || op.Create? || op.GetAttr? || op.Lookup?
    ensures fh.None? ==> Refuses(s, Apply(s, op, fh, e), BadHandle)
    ensures fh.Some? && fh.value.data !in s.handles ==> Refuses(s, Apply(s, op, fh, e), StaleFileHandle)
  {
  }

  // On a filehandle that resolves, the operations that change nothing.
  lemma ReadOnlyReplies(s: Server, op: NfsOperation, fh: NfsFileHandle, e: Choice)
    requires (op.Access? || op.Commit? || op.GetAttr?) && fh.data in s.handles
    ensures var step, path := Apply(s, op, Some(fh), e), s.handles[fh.data];
      && step.server == s
      && match op
         case Commit(_) =>
           if !e.openForSync(path) then Refuses(s, step, IoError)
           else if !e.synced then step.outcome == Abort
           else Refuses(s, step, NfsStatus.Ok)
         case GetAttr(_) =>
           if e.metadata(path).None? then Refuses(s, step, NoEnt)
           else Gives(step.outcome, GetAttrData(e.metadata(path).value.attributes))
         case Access(a) =>
           if e.metadata(path).None? then Refuses(s, step, NoEnt)
           else
             && step.outcome.Answer? && step.outcome.result.status == NfsStatus.Ok
             && step.outcome.result.result.Some? && step.outcome.result.result.value.AccessData?
             && AllowsRights(step.outcome.result.result.value.allowed, e.metadata(path).value, e.uid, e.gid, a.access)
  {
    if op.Access? && e.metadata(s.handles[fh.data]).Some? {
      AllowedRights(e.metadata(s.handles[fh.data]).value, e.uid, e.gid, op.access.access);
    }
  }

  // Lookup enters a handle for a name that is there. Create makes a file, type 1, which empties it,
  // or a directory, type 2, and enters a handle for it.
  lemma EnteringReplies(s: Server, op: NfsOperation, fh: NfsFileHandle, e: Choice)
    requires (op.Lookup? || op.Create?) && fh.data in s.handles
    ensures var step := Apply(s, op, Some(fh), e);
      var path := Join(s.handles[fh.data], if op.Lookup? then op.lookup.objectName else op.create.objectName);
      if op.Lookup? then
        if e.present(path) then Enters(s, step, e.random, path) else Refuses(s, step, NoEnt)
      else if op.create.objectType == 1 then
        if e.createFile(path).None? then Refuses(s, step, IoError)
        else Enters(s.(disk := s.disk[e.createFile(path).value := []]), step, e.random, path)
      else if op.create.objectType == 2 then
        if e.createDir(path) then Enters(s, step, e.random, path) else Refuses(s, step, IoError)
      else Refuses(s, step, BadType)
  {
  }
}
