# A verified model of an NFSv4 server and two address allocators

The repository has three parts that keep state and can go wrong in interesting ways, and this
project models each and proves what it keeps.

**The NFSv4 server** (`nfs4/src/server.rs`). All connections share a handle table and a stateid
table, each behind a reader/writer lock. `ServerSpec` says what one operation and one compound do to
the tables and to file contents, with no locks and no cursors. `NfsServerModel` is the imperative
server, with shared tables, file cursors that seeks and transfers move, and the compound loop; every
handler is proved against `ServerSpec`. `Replies` says what each operation answers and does in terms
of the protocol's own numbers and the reply's fields. `CompoundLaws` gives a compound as the trace of
its operations, and with `FileHistory` proves what any history of operations leaves behind. `Machine` is the concurrent server: any number of compounds in progress, a
fair queue on each lock, and each handler cut where it awaits. `MachineInvariant`,
`MachineProgress` and `MachineRefinement` prove that it keeps its guards, never gets stuck, always
finishes, and refines the sequential server when reads and writes do not overlap on a stateid.
`MachineHistory` proves what needs no such condition: the tables and the replies of every run.
`SharedStateid` proves exactly when two overlapping reads or writes behave as if run one after the
other.

**The wire layer** (`nfs4/src/rpc.rs`, `nfs4/src/main.rs`). `Xdr` builds codecs from the
constructions of RFC 4506 and proves that each accepts exactly the encodings of valid values.
`RpcCodec` and `ProtocolCodec` apply it to the declared types, and prove that the valid values are
exactly those whose lengths are all below 2^32. `WireLayout` writes the bytes of every message,
request and response out once more, field by field, and proves that the codecs produce them.
`Framing` is the length-prefixed buffer, and `Connection` is the loop that turns chunks into calls
and replies, up to what the client reads back. Both hold of any lawful codec; `WireCodecs` supplies
the concrete ones.

**The address allocators** (`network/`). `Ipv4` and `Tun` prove that the TUN allocator's test on
printed addresses is /24 membership, and that its search finds the least free subnet. `Cidr` does the
arithmetic of CIDR blocks and of validation, and `SubnetService` is the registry of the Linux
service over a table of interfaces in which every command may fail.

## Choices

- What the random generator and the operating system decide is an input: one `Choice` per
  operation, one `Exit` per command. Nothing is assumed about it unless a lemma says so. Which file a
  path opens is part of it, so several paths may lead to one file.
- The outcome of a sync is drawn together with the transfer before it and acted on at the end. It
  changes neither tables nor contents, so no behaviour is lost.
- A lock is granted in the order of requests, as the lock the source uses documents for itself.
- Enumerations are numbered in declaration order, so a status travels as its position and not as the
  number its declaration gives it. A byte of a plain byte vector travels widened to four bytes.
  Padding must be zero. Bytes after a decoded value are ignored. These choices concern a codec
  library that is not part of this model; `Framing` and `Connection` do not depend on them.
- Strings on the wire are held as their bytes.
- The CIDR parser is a parameter, and results hold for every parser.

Where the code and what it says about itself disagree, the code is followed:

- The comment at `network/src/subnet_interface.rs:53` speaks of network addresses, but the code
  compares addresses with their host bits. `Cidr.EitherContainsExact` shows that the test is true
  overlap either way.
- The message at `network/src/subnet_interface.rs:44-48` promises that accepted networks lie within
  10.0.0.0/8. That holds exactly from prefix length 8 on (`Cidr.AcceptableInsideExact`).
- The frame length is cut to 32 bits. A frame reads back exactly when its message encodes to fewer
  than 2^32 bytes (`Framing.WriteReadExact`), which `WireCodecs.CallFrameExact` makes a condition on
  the lengths in a call: 2^30 bytes of arguments encode, and the frame does not read back.
- Reads and writes that overlap on one stateid share a cursor and can land at each other's offsets.
  Two that move bytes give a serial result in every interleaving, whatever the files hold, exactly
  when their stateids differ (`SharedStateid.SerialExactly`), and clients that use each stateid in
  one compound only always get a sequential server (`MachineHistory.SerializableByStateid`).
- Create and Lookup that get as far as entering a new handle wait for a write lock under their own
  read guard and never return; any other operation on a filehandle answers
  (`MachineProgress.BlocksItselfExactly`). A fresh server has no handle that resolves.

## Model

| member | source | states |
|---|---|---|
| NfsServerModel.NfsServer.constructor | nfs4/src/server.rs:31-37 | a new server has both tables empty; the export root gets no handle |
| NfsServerModel.NfsServer.HandleAccess | nfs4/src/server.rs:92-147 | the answered rights are, bit by bit, the requested ones that the first matching permission class grants; no state changes |
| ServerSpec.AccessExact | nfs4/src/server.rs:102-125 | a right is allowed exactly when it was requested and the owner, group or other class that applies grants it |
| Replies.AllowedRights | nfs4/src/server.rs:102-125 | the same by number: right 1 needs the read bit, 4 and 8 the write bit and 32 the execute bit of the class that applies, and no other right is allowed |
| Replies.UnresolvedReplies | nfs4/src/server.rs:92-351 | the five operations on a filehandle answer BadHandle without one and StaleFileHandle with one that does not resolve, and change nothing |
| Replies.ReadOnlyReplies | nfs4/src/server.rs:92-303 | what Access, Commit and GetAttr answer on a filehandle that resolves, error by error |
| Replies.EnteringReplies | nfs4/src/server.rs:194-351 | Lookup and Create answer the handle they enter for the joined path, Create empties the file of its path and no other, and each failure answers its own status |
| Replies.JoinExact | nfs4/src/server.rs:196-360 | an absolute name replaces the base, and a relative one comes after the base and one slash |
| NfsServerModel.NfsServer.HandleClose | nfs4/src/server.rs:149-162 | an open stateid is removed, any other answers BadStateid |
| NfsServerModel.NfsServer.HandleCommit | nfs4/src/server.rs:164-192 | syncs the file of a resolved handle; a failing sync aborts the compound |
| NfsServerModel.NfsServer.HandleCreate | nfs4/src/server.rs:194-257 | creates a file, emptying it, or a directory under a resolved handle, and enters a new handle |
| NfsServerModel.NfsServer.HandleGetAttr | nfs4/src/server.rs:259-303 | answers the attributes of a resolved handle, NoEnt without metadata |
| NfsServerModel.NfsServer.HandleGetFh | nfs4/src/server.rs:305-315 | answers a random handle that is not entered in the table |
| NfsServerModel.NfsServer.HandleLookup | nfs4/src/server.rs:317-351 | enters a new handle for a name that exists under a resolved handle |
| NfsServerModel.NfsServer.HandleOpen | nfs4/src/server.rs:353-396 | a null claim that opens answers Ok with a stateid that is in the table, with a new cursor of its own; otherwise the answer is an error and nothing changes |
| Replies.OpenedFileExact | nfs4/src/server.rs:353-367 | an Open asks the system for the file at the joined path, to read with share bit 1 and to write with bit 4 or 8, for a null claim only |
| Replies.OpenReply | nfs4/src/server.rs:353-396 | the stateid an Open answers is the one it draws and enters, for the file the system opened; a refused Open answers IoError and any claim but null Error |
| Replies.OpenThenUse | nfs4/src/server.rs:353-467 | after every history, a Read or Write through the stateid an Open answered acts on the file that Open got |
| Replies.TransferReply | nfs4/src/server.rs:398-467 | a Read answers the bytes from its offset, as many as asked for, given and there; a Write puts its data at its offset, zeros in a gap before it, keeps all other bytes and all other files, and answers its count; each failure has its own answer |
| Replies.CloseReply | nfs4/src/server.rs:149-162 | Close answers Ok and takes away an open stateid, and only it, or answers BadStateid |
| Replies.OtherReplies | nfs4/src/server.rs:49-79 | GetFh answers a random handle and enters it nowhere; OpenConfirm and Lookupp answer Error |
| NfsServerModel.NfsServer.HandleRead | nfs4/src/server.rs:398-431 | seeking a shared cursor and reading at it has the effect of reading at the offset |
| NfsServerModel.NfsServer.HandleWrite | nfs4/src/server.rs:433-467 | seeking a shared cursor and writing at it has the effect of writing at the offset, even when the write stops short |
| NfsServerModel.NfsServer.Dispatch | nfs4/src/server.rs:49-79 | every operation goes to its handler with the current filehandle; unsupported ones answer Error |
| NfsServerModel.NfsServer.HandleCompound | nfs4/src/server.rs:39-90 | operations run in order, each on the tables and filehandle the ones before it left, until one is not Ok; there is no response exactly after a handler's error, and otherwise it has the request's tag, one result for each operation run, all Ok but the last, and the last one's status |
| NfsServerModel.NfsServer.RunOperations | nfs4/src/server.rs:44-83 | the loop, with its break and its early return, leaves the tables, the status and the results of running the operations in order |
| CompoundLaws.CompoundTrace | nfs4/src/server.rs:39-90 | every compound has a trace: the server before and after each operation, the filehandle as the last answered GetFh or Lookup left it, and the outcomes its response is made of |
| CompoundLaws.PerformsExactly | nfs4/src/server.rs:39-90 | the trace is the only one: a compound leaves given tables with a given response exactly when some trace does |
| CompoundLaws.CompoundShape | nfs4/src/server.rs:39-90 | every result but the last is Ok, the status is the last result's, and a compound that ends Ok ran all its operations |
| CompoundLaws.CompoundSplits | nfs4/src/server.rs:39-90 | running a ++ b is running a and then, only if a ended Ok, b from the tables and filehandle a left, results concatenated |
| CompoundLaws.CompoundIsRun | nfs4/src/server.rs:44-83 | a compound's effect on the tables is that of the history of the operations it ran |
| CompoundLaws.HandlesStayEmpty | nfs4/src/server.rs:194-208 | over every history the handle table of a fresh server stays empty, since inserts need a handle that resolves |
| CompoundLaws.EmptyTableReplies | nfs4/src/server.rs:39-90 | in every reachable state the five filehandle operations answer BadHandle before the first GetFh of their compound and StaleFileHandle after it |
| FileHistory.TableIsBinding | nfs4/src/server.rs:353-396 | after every history a stateid stands for its last Open unless closed since, and each Open has a new cursor |
| FileHistory.LiveExactly | nfs4/src/server.rs:149-162 | a stateid is in the table exactly when some Open entered it and no later Close removed it |
| FileHistory.BadStateidExactly | nfs4/src/server.rs:398-467 | Read, Write and Close answer BadStateid exactly through a stateid that is not open |
| FileHistory.DistinctBinding | nfs4/src/server.rs:353-384 | with distinct random stateids an open one stands for the file its own Open got |
| FileHistory.LastWriterWins | nfs4/src/server.rs:433-454 | after every history each byte of each file is from the last write covering it through any stateid, else the initial byte, else zero, and the length is exact |
| FileHistory.ReadSeesLastWrites | nfs4/src/server.rs:398-413 | a successful Read returns a run of last-written bytes from its offset, at most count, and all there are unless the system cuts it short |
| MachineInvariant.StepKeeps | nfs4/src/server.rs:92-467 | every step of every handler keeps the guards, the queues, the empty handle table and the cursors of the stateids |
| MachineInvariant.ReachableInv | nfs4/src/server.rs:30-37 | the invariant holds in every reachable state of the concurrent server |
| MachineProgress.TransferStateidLive | nfs4/src/server.rs:399-408 | in every interleaving, at each seek and transfer the stateid is still in the table, on the cloned file |
| MachineProgress.GuardsHeld | nfs4/src/server.rs:92-467 | in every interleaving whoever is inside a handler holds its guard: Open and Close alone, Read and Write among the readers of the stateids, the filehandle operations among the readers of the handles |
| MachineProgress.NoOvertaking | nfs4/src/server.rs:92-467 | in every run a request for a lock waits as long as an earlier one for the same lock does |
| MachineProgress.ExclusiveIsAlone | nfs4/src/server.rs:149-151 | in every interleaving a handler under a write guard is the only one under that lock |
| MachineProgress.NeverStuck | nfs4/src/server.rs:92-467 | from a fresh server no reachable state is stuck: some task can step while any compound is unfinished |
| MachineProgress.RunsAreBounded | nfs4/src/server.rs:39-90 | without new compounds every run is at most as long as the work at hand |
| MachineProgress.CanFinish | nfs4/src/server.rs:39-90 | from every reachable state all compounds can be driven to the end, whatever the system decides at each step |
| MachineProgress.RunsEndDone | nfs4/src/server.rs:39-90 | however scheduled, a run cannot go on exactly when every compound is done |
| MachineProgress.BlocksItselfExactly | nfs4/src/server.rs:194-229 | a handler under its read guard blocks itself for good exactly when it is a Create or Lookup that gets as far as a new handle; any other answers |
| MachineProgress.UpgradeNeverReturns | nfs4/src/server.rs:196-226 | a task that waits to write under its own read guard never moves again in any run |
| MachineRefinement.TransferIsWhole | nfs4/src/server.rs:402-408 | a transfer that finds the cursor at its offset is the whole operation |
| MachineRefinement.TransferMovesCursor | nfs4/src/server.rs:402-440 | a transfer takes place at the shared cursor and leaves it behind the bytes it moved |
| MachineRefinement.PlacedStep | nfs4/src/server.rs:437-440 | without overlap on a stateid, every task about to transfer finds the cursor where it sought |
| MachineRefinement.StepRefines | nfs4/src/server.rs:92-467 | each concurrent step is one whole operation of the sequential server or nothing |
| MachineRefinement.Serializable | nfs4/src/server.rs:398-467 | every run without overlap between seek and transfer on one stateid has the tables, contents and replies of its operations run one after another in the order they took effect |
| MachineRefinement.SoloIsExecute | nfs4/src/server.rs:39-90 | one compound's operations run back to back on the sequential server do what the compound loop does |
| MachineRefinement.ConcurrentHistory | nfs4/src/server.rs:398-467 | so after every such concurrent run each byte is the last writer's in order of transfers |
| MachineHistory.TableOfEveryRun | nfs4/src/server.rs:149-162 | in every concurrent run, overlapping or not, a stateid is in the table exactly when some Open entered it and no later Close removed it, and stands for what its last Open got |
| MachineHistory.EffectUnderGuard | nfs4/src/server.rs:92-467 | in every concurrent run an operation takes effect only under its guard |
| MachineHistory.BadStateidInEveryRun | nfs4/src/server.rs:399-467 | in every concurrent run Read, Write and Close answer BadStateid exactly through a stateid that is not open when they are decided |
| MachineHistory.RepliesInEveryRun | nfs4/src/server.rs:39-90 | in every concurrent run the five filehandle operations answer BadHandle before the first GetFh of their own compound and StaleFileHandle after it |
| MachineHistory.ApartIsUndisturbed | nfs4/src/server.rs:398-467 | keeping Reads and Writes in flight on different stateids is enough for the refinement |
| MachineHistory.SerializableByStateid | nfs4/src/server.rs:398-467 | if no stateid is read or written by two compounds, every run is that of a sequential server |
| SharedStateid.SerialExactly | nfs4/src/server.rs:398-467 | two Reads or Writes ready to move bytes give the contents and replies of one order or the other, in every interleaving and on all contents, exactly when their stateids differ |
| SharedStateid.OverlapRun | nfs4/src/server.rs:437-440 | past both seeks on one stateid, the first to transfer does so at the other's offset, and the second right behind it |
| SharedStateid.InterleavingLosesAWrite | nfs4/src/server.rs:437-440 | a run of a fresh server whose contents neither order of the two writes gives |
| SharedStateid.SerialWrites | nfs4/src/server.rs:433-454 | what either order gives for those writes |
| Xdr.DecodeExact | nfs4/src/rpc.rs:164-173 | decode succeeds with a value exactly on the byte strings starting with its encoding |
| Xdr.PrefixFree | nfs4/src/rpc.rs:164-168 | no valid encoding is a prefix of another, so encoding is injective |
| Xdr.CutEncodingRejected | nfs4/src/rpc.rs:170-172 | a proper prefix of a valid encoding does not decode |
| Words.BigEndian | nfs4/src/rpc.rs:181-187 | a word is four bytes, the most significant first |
| RpcCodec.RpcMsgLawful | nfs4/src/rpc.rs:28-89 | the codec of the call and reply messages is lawful and fills whole four-byte units |
| RpcCodec.CallLayout | nfs4/src/rpc.rs:28-49 | the bytes of a call in field order |
| RpcCodec.AcceptedLayout | nfs4/src/rpc.rs:51-68 | the bytes of an accepted reply in field order |
| RpcCodec.AuthLayout | nfs4/src/rpc.rs:76-80 | the bytes of a credential in field order |
| WireLayout.MsgLayout | nfs4/src/rpc.rs:28-89 | the bytes of every message that can be encoded, call, accepted or rejected reply |
| WireLayout.RequestLayout | nfs4/src/protocol.rs:56-154 | the bytes of every request that can be encoded: the number of each operation and the order of its fields |
| WireLayout.ResponseLayout | nfs4/src/protocol.rs:156-193 | the bytes of every response that can be encoded: statuses by their place in the declaration, data by its number |
| RpcCodec.ValidMsg | nfs4/src/rpc.rs:28-89 | a call, an accepted reply or a rejected one is encodable exactly when its byte lists have lengths below 2^32 |
| RpcCodec.MsgExact | nfs4/src/rpc.rs:164-173 | a message with lengths below 2^32 and any bytes after it decode exactly from its encoding followed by those bytes |
| ProtocolCodec.ValidRequest | nfs4/src/protocol.rs:56-154 | a request is encodable exactly when every string, byte list and array in it has length below 2^32 |
| ProtocolCodec.ValidResponse | nfs4/src/protocol.rs:156-193 | the same of a response |
| ProtocolCodec.RequestExact | nfs4/src/protocol.rs:56-154 | a request with lengths below 2^32 and any bytes after it decode exactly from its encoding followed by those bytes, for all operations |
| ProtocolCodec.ResponseExact | nfs4/src/protocol.rs:156-193 | the same for compound responses, all statuses and result data |
| WireCodecs.ConcreteLawful | nfs4/src/main.rs:78-84 | the three codecs of a connection are lawful |
| WireCodecs.FreshCallRoundTrip | nfs4/src/main.rs:76-84 | every call with a request whose lengths are below 2^32, to a fresh server after any history, gets an accepted reply with its xid, status 0 and data that decode to the response of running the request, and none exactly when the compound aborts |
| WireCodecs.CallFrameExact | nfs4/src/rpc.rs:192-198 | a call whose lengths fit encodes, and its frame reads back exactly when its two credentials and its arguments together have fewer than 2^30 - 11 bytes |
| Framing.FrameExact | nfs4/src/rpc.rs:176-189 | a frame is read exactly when the buffer is a length in four bytes, most significant first, that many bytes and the rest |
| Framing.WriteReadExact | nfs4/src/rpc.rs:176-198 | a written frame reads back exactly when the encoding is below 2^32 bytes, and is reported undecodable otherwise |
| Framing.DrainSplit | nfs4/src/main.rs:72-73 | draining a buffer in two parts is draining it at once |
| Framing.ChunkingIrrelevant | nfs4/src/main.rs:61-73 | however the stream is cut, the same messages come out up to the first undecodable frame, and otherwise the same residue |
| Framing.ReadBack | nfs4/src/rpc.rs:176-198 | reading a written list returns the messages before the first oversize one; with none, the list, and a trailing partial frame stays |
| Framing.CutFrameIncomplete | nfs4/src/rpc.rs:181-184 | a proper prefix of a frame is not read |
| Framing.ReadRpcMessage | nfs4/src/rpc.rs:176-189 | None leaves the buffer alone; otherwise one frame is consumed, at least four bytes |
| Framing.WriteRpcMessage | nfs4/src/rpc.rs:192-198 | appends the length in four bytes and the encoding, or nothing when the message cannot be encoded |
| Connection.AnswerMessage | nfs4/src/main.rs:75-99 | a call of program 100003, version 4, is run and answered with its xid, status 0 and the encoded response; anything else is answered with its xid, status 2 and no data; there is no answer exactly when a call of the program cannot be |
| Connection.AnswerExact | nfs4/src/main.rs:75-99 | a message is answered with a given reply, leaving given tables, exactly when the fields of the reply say so |
| Connection.UnansweredExact | nfs4/src/main.rs:76-84 | a message goes unanswered exactly when it is a call of this program whose arguments do not decode, whose compound aborts or whose response cannot be encoded |
| Connection.CallRoundTrip | nfs4/src/main.rs:76-84 | the reply to an encoded request has the xid of the call and carries the response of running it; there is none exactly when the compound aborts or its response cannot be encoded |
| Connection.RepliesMatch | nfs4/src/main.rs:75-98 | one reply per message in order, each with its message's xid and with success and the response or program mismatch as the message deserves, from the state the ones before it left |
| Connection.ServeSplit | nfs4/src/main.rs:72-100 | serving more messages goes on where the first ones left the server, unless they ended the connection |
| Connection.ChunksExact | nfs4/src/main.rs:61-70 | the input of a connection is what arrives before the first empty read or read failure |
| Connection.SendFrame | nfs4/src/main.rs:86-88 | sends a frame, or some prefix of it before a failing write |
| Connection.AnswerBuffered | nfs4/src/main.rs:71-100 | the inner loop answers every message in the buffer, stopping short of what can be answered only at a failing write |
| Connection.HandleClient | nfs4/src/main.rs:60-102 | whatever the chunks, exactly the frames of a prefix of the replies to the whole input go out; without a failing write all that can be answered, and success exactly when everything decodes and is answered and the peer closes |
| Connection.OutputParses | nfs4/src/main.rs:86-88 | parsing what was sent gives back the replies sent whole, up to the first oversize one |
| Connection.ClientGetsReplies | nfs4/src/main.rs:60-102 | parsing what a run of the connection sent gives, for each message of a prefix of its input and in order, the reply whose fields that message deserves; without failing writes and oversize replies, all that can be answered |
| Ipv4.DecimalInjective | network/src/tun_interface.rs:33-39 | different numbers print differently |
| Ipv4.ToStringInjective | network/src/tun_interface.rs:51-53 | a printed address names one address |
| Ipv4.DecimalExact | network/src/tun_interface.rs:33-39 | a number prints as the one text of digits without a leading zero that reads back as it, digit by digit |
| Ipv4.ToStringExact | network/src/tun_interface.rs:51-53 | an address prints as its four octets in that form with dots between them, and as nothing else |
| Tun.TextTestExact | network/src/tun_interface.rs:33-41 | the printed-prefix test holds exactly for the addresses of 10.i.0.0/24, for every i |
| Tun.FoundExact | network/src/tun_interface.rs:50-54 | the printed results denote 10.i.0.1, 255.255.255.0 and 10.i.0.255 |
| Tun.FindAvailableSubnet | network/src/tun_interface.rs:28-59 | finds the least subnet with no interface address, and fails exactly when all 256 are occupied |
| Tun.FewAddressesSuffice | network/src/tun_interface.rs:32-58 | with fewer than 256 distinct addresses some subnet is free |
| Tun.TunHost.CreateTunDevice | network/src/tun_interface.rs:61-94 | a device gets the least free subnet and is made with its address, its mask and the name asked for, up; fails exactly when there is none or the system refuses, leaving the host alone |
| Tun.CreateDevices | network/src/tun_interface.rs:61-94 | any number of creates on one host, failing or not, hands out the subnets of successive creates: strictly increasing, at most 256 |
| Tun.PicksIncrease | network/src/tun_interface.rs:28-59 | while no address is removed the subnets handed out strictly increase |
| Tun.AtMost256 | network/src/tun_interface.rs:32-58 | so at most 256 creates succeed |
| Cidr.ContainsExact | network/src/subnet_interface.rs:43 | a block contains an address exactly when they agree above the host bits |
| Cidr.ContainsBits | network/src/subnet_interface.rs:43 | a network contains an address exactly when the first prefix bits of their octets agree |
| Cidr.EitherContainsExact | network/src/subnet_interface.rs:52-54 | "either contains the other's address" is true intersection of the ranges, host bits included |
| Cidr.OverlapIsNesting | network/src/subnet_interface.rs:52-54 | two blocks are disjoint or the longer prefix lies inside, and whether the shorter one contains the longer one's address tells which |
| Cidr.ExcludedAddress | network/src/subnet_interface.rs:164-171 | a block that excludes another's address is disjoint from it or strictly nested in it |
| Cidr.ValidateNetwork | network/src/subnet_interface.rs:41-64 | accepts exactly the networks with address in 10.0.0.0/8 and prefix at least 2 |
| Cidr.AcceptableAvoidsProtected | network/src/subnet_interface.rs:51-61 | an accepted network meets no protected one |
| Cidr.AcceptableInsideExact | network/src/subnet_interface.rs:42-49 | an accepted network lies inside 10.0.0.0/8 exactly when its prefix is at least 8 |
| SubnetService.Service.IsSubnetAvailable | network/src/subnet_interface.rs:160-174 | true exactly when no address of the host agrees with the network in every bit of its prefix, an error exactly when the network is not in 10.0.0.0/8 or its prefix is below 2 |
| SubnetService.Service.ConfigureSubnet | network/src/subnet_interface.rs:229-286 | success puts the address on the interface named dummy and the numeral of the least number the host has no dummy for; failure leaves at most a new interface behind; when commands behave it succeeds exactly for an acceptable network without host addresses and fewer than 255 dummies |
| SubnetService.DummyExact | network/src/subnet_interface.rs:241-243 | the name tried for number k is the word dummy and the decimal numeral of k, and no other text |
| SubnetService.RoomExact | network/src/subnet_interface.rs:241-249 | a number below 255 is free exactly when the host has fewer than 255 of these dummies |
| SubnetService.Service.RemoveSubnet | network/src/subnet_interface.rs:310-337 | success means the interface carried the address and is gone, and nothing else changed; failure takes away at most the address; when commands behave it succeeds exactly for an acceptable network its interface carries |
| SubnetService.Service.CreateSubnet | network/bin/subnet.rs:185-199 | stores the subnet under its own CIDR, never over another entry; failure leaves the store alone |
| SubnetService.Service.RemoveSubnetHandler | network/bin/subnet.rs:206-219 | the entry is dropped even when a command fails; an unknown one changes nothing |
| SubnetService.NeverOverwrites | network/bin/subnet.rs:191-195 | a create never finds an entry under its CIDR |
| SubnetService.ServesKeeps | network/bin/subnet.rs:185-219 | every request, failing or not, keeps each entry keyed by its CIDR, backed by an interface of its own carrying its address, and free of older entries' addresses |
| SubnetService.RunIsSound | network/bin/subnet.rs:185-219 | so in every state of every run from an empty store |
| SubnetService.LiveEntriesApart | network/src/subnet_interface.rs:160-174 | of two live entries the younger excludes the older's address; they overlap exactly when the older holds the younger's address, and then the younger is strictly nested |
| SubnetService.NestedEntries | network/src/subnet_interface.rs:164-171 | a run in which 10.0.1.0/24 on dummy1 lives inside 10.0.0.1/16 on dummy0 |
| SubnetService.AtMost255 | network/src/subnet_interface.rs:241-283 | at most 255 entries are ever live |

## Left out

- NfsServerModel.NfsServer.HandleCreate: has no locks, so it returns where the source would wait for itself; the lock-step machine shows that wait.
- NfsServerModel.NfsServer.HandleLookup: has no locks, for the same reason.
- NfsServerModel.NfsServer.HandleGetAttr: the copy of single metadata fields is taken as given; a reading of the one branch settles it.
- Connection.HandleClient: the connection is the only user of the server while it runs; interleaving with other connections is the machine's subject.
- Tun.CreateDevices: devices are created one after another; two creates at once may find the same subnet.
- SubnetService.RunIsSound: requests are served one at a time, although the source configures a subnet before it takes the store's lock.
- Conformance of the codec with the actual serialization library, the text encoding check on strings, record marking of section 11 of RFC 5531 and the message layout of section 9 of RFC 5531.
- File buffering: a transfer reaches the file in one step, though the runtime may split a large one and may finish it after the reply.
- The bound on the number of simultaneous readers of a lock.
- Cancelling a handler half way: the source runs each connection to its end.
- Sockets, scheduling, routing, logging, signals, shutdown cleanup and service files.
- What paths mean: containment in the export directory, links, and permissions of the host.
- Checks the source does not make: share deny, sequence numbers of Open and Close.
- Reading existing subnets from command output at start; the registry starts empty.
- Rolling back a partly failed create or remove: the source does not.
- The macOS variants, the older and daemon variants of the TUN and subnet services, and listing.
- The garbage-arguments reply, which nothing calls.
