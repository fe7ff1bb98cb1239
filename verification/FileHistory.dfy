/**
 What any history of operations leaves behind: which stateids are open, on
 which file, and every byte of every file, each defined from the history alone.
 */
module FileHistory {
  import opened Wrappers
  import opened Words
  import opened Protocol
  import opened ServerSpec
  import CompoundLaws

  //---------------------------------------------------------------------------
  // Which stateids are open
  //---------------------------------------------------------------------------

  // The file an Open gets, when its claim and the operating system allow one.
  function OpenedFile(root: Path, ev: Event): Option<FileId> {
    if !ev.op.Open? || !ev.op.open.openClaim.Null? then None
    else
      var a := ev.op.open;
      ev.choice.open(
        Join(root, a.openClaim.path),
        HasBit(a.shareAccess, ACCESS4_READ),
        HasBit(a.shareAccess, ACCESS4_MODIFY) || HasBit(a.shareAccess, ACCESS4_EXTEND))
  }

  predicate Opens(root: Path, ev: Event, id: StateId) {
    OpenedFile(root, ev).Some? && ev.choice.random == id
  }

  predicate Closes(ev: Event, id: StateId) {
    ev.op.Close? && ev.op.close.openStateid == id
  }

  function OpenCount(root: Path, events: seq<Event>): nat {
    if events == [] then 0
    else
      var n := |events| - 1;
      OpenCount(root, events[..n]) + (if OpenedFile(root, events[n]).Some? then 1 else 0)
  }

  function StateOpened(root: Path, ev: Event, cursor: nat): FileState
    requires OpenedFile(root, ev).Some?
  {
    var a := ev.op.open;
    FileState(Join(root, a.openClaim.path), a.shareAccess, a.seqid, Some(File(OpenedFile(root, ev).value, cursor)))
  }

  // What a stateid stands for after a history: the last Open of it, unless closed since.
  function Binding(root: Path, events: seq<Event>, id: StateId): Option<FileState> {
    if events == [] then None
    else
      var n := |events| - 1;
      if Opens(root, events[n], id) then Some(StateOpened(root, events[n], OpenCount(root, events[..n])))
      else if Closes(events[n], id) then None
      else Binding(root, events[..n], id)
  }

  // The table is exactly the bindings of the history, and cursors are numbered by Opens.
  lemma {:induction false} TableIsBinding(root: Path, disk: Disk, events: seq<Event>, id: StateId)
    ensures var s := Run(Fresh(root, disk), events);
      && s.root == root && s.handles == map[] && s.nextCursor == OpenCount(root, events)
      && Binding(root, events, id) == if id in s.stateids then Some(s.stateids[id]) else None
    decreases |events|
  {
    CompoundLaws.HandlesStayEmpty(Fresh(root, disk), events);
    if events != [] {
      var n := |events| - 1;
      TableIsBinding(root, disk, events[..n], id);
      CompoundLaws.HandlesStayEmpty(Fresh(root, disk), events[..n]);
      TableStep(Run(Fresh(root, disk), events[..n]), events[n], id);
    }
  }

  // How one operation changes the entry of one stateid.
  lemma TableStep(s: Server, ev: Event, id: StateId)
    requires s.handles == map[]
    ensures var s' := After(s, ev);
      && s'.root == s.root
      && s'.nextCursor == s.nextCursor + (if OpenedFile(s.root, ev).Some? then 1 else 0)
      && (if Opens(s.root, ev, id) then id in s'.stateids && s'.stateids[id] == StateOpened(s.root, ev, s.nextCursor)
          else if Closes(ev, id) then id !in s'.stateids
          else (id in s'.stateids <==> id in s.stateids)
               && (id in s.stateids ==> s'.stateids[id] == s.stateids[id]))
  {
  }

  ghost predicate OpenSince(root: Path, events: seq<Event>, id: StateId, i: nat) {
    i < |events| && Opens(root, events[i], id) && forall j :: i < j < |events| ==> !Closes(events[j], id)
  }

  lemma {:induction false} BindingLive(root: Path, events: seq<Event>, id: StateId)
    ensures Binding(root, events, id).Some? <==> exists i: nat :: OpenSince(root, events, id, i)
    decreases |events|
  {
    if events != [] {
      var n := |events| - 1;
      var front := events[..n];
      BindingLive(root, front, id);
      if Opens(root, events[n], id) {
        assert OpenSince(root, events, id, n);
      } else if !Closes(events[n], id) {
        forall i: nat | OpenSince(root, front, id, i) ensures OpenSince(root, events, id, i) {
        }
        forall i: nat | OpenSince(root, events, id, i) ensures OpenSince(root, front, id, i) {
          assert forall j :: i < j < n ==> front[j] == events[j];
        }
      } else {
        forall i: nat ensures !OpenSince(root, events, id, i) {
          assert i < n ==> Closes(events[n], id);
        }
      }
    }
  }

  // A stateid is in the table exactly when some Open entered it and no later Close removed it.
  lemma LiveExactly(root: Path, disk: Disk, events: seq<Event>, id: StateId)
    ensures id in Run(Fresh(root, disk), events).stateids <==> exists i: nat :: OpenSince(root, events, id, i)
  {
    TableIsBinding(root, disk, events, id);
    BindingLive(root, events, id);
  }

  // Read, Write and Close answer BadStateid exactly through a stateid that is not open.
  lemma BadStateidExactly(root: Path, disk: Disk, events: seq<Event>, ev: Event, id: StateId)
    requires (IsTransfer(ev.op) && StateidOf(ev.op) == id) || Closes(ev, id)
    ensures Apply(Run(Fresh(root, disk), events), ev.op, ev.fh, ev.choice).outcome == Fail(BadStateid)
      <==> !exists i: nat :: OpenSince(root, events, id, i)
  {
    LiveExactly(root, disk, events, id);
  }

  // No two Opens drew the same random stateid.
  ghost predicate DistinctOpens(root: Path, events: seq<Event>) {
    forall i, j, id :: 0 <= i < j < |events| && Opens(root, events[i], id) ==> !Opens(root, events[j], id)
  }

  // With distinct stateids, an open one stands for the file its own Open got.
  lemma {:induction false} DistinctBinding(root: Path, events: seq<Event>, id: StateId, i: nat)
    requires DistinctOpens(root, events) && OpenSince(root, events, id, i)
    ensures Binding(root, events, id) == Some(StateOpened(root, events[i], OpenCount(root, events[..i])))
    decreases |events|
  {
    var n := |events| - 1;
    if i < n {
      var front := events[..n];
      assert !Opens(root, events[n], id) && !Closes(events[n], id);
      forall a, b, x | 0 <= a < b < n && Opens(root, front[a], x) ensures !Opens(root, front[b], x) {
        assert Opens(root, events[a], x);
      }
      DistinctBinding(root, front, id, i);
      assert front[..i] == events[..i];
    }
  }

  //---------------------------------------------------------------------------
  // File contents: the last writer of every byte
  //---------------------------------------------------------------------------

  datatype Patch = Patch(at: nat, data: seq<byte>)

  // The bytes an operation put into a file, given what stateids stood for before it.
  function PatchOf(root: Path, before: seq<Event>, ev: Event, id: FileId): Option<Patch> {
    if !ev.op.Write? || !ev.choice.cloned || !ev.choice.sought then None
    else
      match Binding(root, before, ev.op.write.stateid)
      case None => None
      case Some(state) =>
        if state.file.None? || state.file.value.id != id then None
        else Some(Patch(ev.op.write.offset, Written(ev.op.write.data, ev.choice.transfer)))
  }

  // All writes to a file in a history, through whatever stateids.
  function Patches(root: Path, events: seq<Event>, id: FileId): seq<Patch> {
    if events == [] then []
    else
      var n := |events| - 1;
      var p := PatchOf(root, events[..n], events[n], id);
      Patches(root, events[..n], id) + (if p.Some? then [p.value] else [])
  }

  predicate Covers(p: Patch, k: nat) {
    p.at <= k < p.at + |p.data|
  }

  // The byte from the last patch covering k, else the initial byte, else zero.
  function ByteAt(initial: seq<byte>, patches: seq<Patch>, k: nat): byte {
    if patches == [] then (if k < |initial| then initial[k] else 0)
    else
      var p := patches[|patches| - 1];
      if Covers(p, k) then p.data[k - p.at] else ByteAt(initial, patches[..|patches| - 1], k)
  }

  // One past the last byte ever written or initially there.
  function Extent(initial: seq<byte>, patches: seq<Patch>): nat {
    if patches == [] then |initial|
    else
      var before, p := Extent(initial, patches[..|patches| - 1]), patches[|patches| - 1];
      if p.data == [] || p.at + |p.data| <= before then before else p.at + |p.data|
  }

  ghost predicate Holds(content: seq<byte>, initial: seq<byte>, patches: seq<Patch>) {
    && |content| == Extent(initial, patches)
    && forall k :: 0 <= k < |content| ==> content[k] == ByteAt(initial, patches, k)
  }

  lemma {:induction false} BeyondExtent(initial: seq<byte>, patches: seq<Patch>, k: nat)
    requires k >= Extent(initial, patches)
    ensures ByteAt(initial, patches, k) == 0
  {
    if patches != [] {
      BeyondExtent(initial, patches[..|patches| - 1], k);
    }
  }

  lemma WriteHolds(content: seq<byte>, initial: seq<byte>, patches: seq<Patch>, p: Patch)
    requires Holds(content, initial, patches)
    ensures Holds(WriteAt(content, p.at, p.data), initial, patches + [p])
  {
    var after, all := WriteAt(content, p.at, p.data), patches + [p];
    assert all[..|all| - 1] == patches;
    forall k | 0 <= k < |after| ensures after[k] == ByteAt(initial, all, k) {
      if k >= |content| {
        BeyondExtent(initial, patches, k);
      }
    }
  }

  // After any history of a fresh server, whatever Opens, Closes, Reads and Writes it mixes,
  // every byte of every file is the one its last writer put there.
  lemma {:induction false} LastWriterWins(root: Path, disk: Disk, events: seq<Event>, id: FileId)
    ensures Holds(
      Contents(Run(Fresh(root, disk), events).disk, id), Contents(disk, id), Patches(root, events, id))
    decreases |events|
  {
    if events != [] {
      var n := |events| - 1;
      var s, ev := Run(Fresh(root, disk), events[..n]), events[n];
      LastWriterWins(root, disk, events[..n], id);
      CompoundLaws.HandlesStayEmpty(Fresh(root, disk), events[..n]);
      var p := PatchOf(root, events[..n], ev, id);
      if ev.op.Write? {
        TableIsBinding(root, disk, events[..n], ev.op.write.stateid);
      }
      DiskStep(s, ev, id, p);
      var before := Patches(root, events[..n], id);
      if p.Some? {
        WriteHolds(Contents(s.disk, id), Contents(disk, id), before, p.value);
      } else {
        assert before + [] == before;
      }
    }
  }

  // How one operation changes one file.
  lemma DiskStep(s: Server, ev: Event, id: FileId, p: Option<Patch>)
    requires s.handles == map[]
    requires p ==
      if ev.op.Write? && ev.choice.cloned && ev.choice.sought && ev.op.write.stateid in s.stateids
         && s.stateids[ev.op.write.stateid].file.Some? && s.stateids[ev.op.write.stateid].file.value.id == id
      then Some(Patch(ev.op.write.offset, Written(ev.op.write.data, ev.choice.transfer)))
      else None
    ensures Contents(After(s, ev).disk, id) ==
      if p.Some? then WriteAt(Contents(s.disk, id), p.value.at, p.value.data) else Contents(s.disk, id)
  {
  }

  // What a Read returns of a file whose bytes are known.
  lemma ReadHolds(s: Server, a: ReadOperation, e: Choice, id: FileId, initial: seq<byte>, patches: seq<Patch>)
    requires a.stateid in s.stateids && s.stateids[a.stateid].file.Some? && s.stateids[a.stateid].file.value.id == id
    requires e.cloned && e.sought && e.transfer.Moved? && Holds(Contents(s.disk, id), initial, patches)
    ensures var o := Apply(s, Read(a), None, e).outcome;
      && o.Answer? && o.result.status == NfsStatus.Ok && o.result.result.Some? && o.result.result.value.ReadData?
      && var buf := o.result.result.value.bytes;
      && |buf| <= a.count
      && (buf != [] ==> a.offset + |buf| <= Extent(initial, patches))
      && (forall k :: 0 <= k < |buf| ==> buf[k] == ByteAt(initial, patches, a.offset + k))
      && (e.transfer.n >= a.count ==>
            |buf| == a.count || a.offset + |buf| == Extent(initial, patches)
            || (buf == [] && a.offset >= Extent(initial, patches)))
  {
  }

  // A successful Read through a stateid returns a run of the file's bytes from its offset, at
  // most `count` of them, each the last one written there; a read the operating system does not
  // cut short returns all there are.
  lemma ReadSeesLastWrites(root: Path, disk: Disk, events: seq<Event>, a: ReadOperation, e: Choice, state: FileState)
    requires Binding(root, events, a.stateid) == Some(state) && state.file.Some?
    requires e.cloned && e.sought && e.transfer.Moved?
    ensures var id := state.file.value.id;
      var initial, patches := Contents(disk, id), Patches(root, events, id);
      var o := Apply(Run(Fresh(root, disk), events), Read(a), None, e).outcome;
      && o.Answer? && o.result.status == NfsStatus.Ok && o.result.result.Some? && o.result.result.value.ReadData?
      && var buf := o.result.result.value.bytes;
      && |buf| <= a.count
      && (buf != [] ==> a.offset + |buf| <= Extent(initial, patches))
      && (forall k :: 0 <= k < |buf| ==> buf[k] == ByteAt(initial, patches, a.offset + k))
      && (e.transfer.n >= a.count ==>
            |buf| == a.count || a.offset + |buf| == Extent(initial, patches)
            || (buf == [] && a.offset >= Extent(initial, patches)))
  {
    TableIsBinding(root, disk, events, a.stateid);
    var id := state.file.value.id;
    LastWriterWins(root, disk, events, id);
    ReadHolds(Run(Fresh(root, disk), events), a, e, id, Contents(disk, id), Patches(root, events, id));
  }
}
