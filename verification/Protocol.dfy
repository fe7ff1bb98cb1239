/** The NFSv4 data types: operations, their results, and the compound that carries them. */
module Protocol {
  import opened Wrappers
  import opened Words

  const NFS_VERSION: u32 := 4
  const NFS_PROGRAM: u32 := 100003

  const NF4REG: u32 := 1
  const NF4DIR: u32 := 2

  const ACCESS4_READ: u32 := 1
  const ACCESS4_MODIFY: u32 := 4
  const ACCESS4_EXTEND: u32 := 8
  const ACCESS4_EXECUTE: u32 := 32

  // `[u8; 16]`
  type StateId = s: seq<byte> | |s| == 16 witness seq(16, _ => 0)

  datatype NfsFileHandle = NfsFileHandle(data: seq<byte>)

  datatype NfsTime = NfsTime(seconds: u64, nseconds: u32)

  // A String is held as its bytes.
  datatype NfsFileAttributes = NfsFileAttributes(
    kind: u32,
    mode: u32,
    size: u64,
    spaceUsed: u64,
    timeAccess: NfsTime,
    timeModify: NfsTime,
    owner: seq<byte>,
    group: seq<byte>)

  datatype AccessOperation = AccessOperation(access: u32)
  datatype CloseOperation = CloseOperation(seqid: u32, openStateid: StateId)
  datatype CommitOperation = CommitOperation(offset: u64, count: u32)
  datatype CreateOperation =
    CreateOperation(objectType: u32, objectName: seq<byte>, attributes: NfsFileAttributes)
  datatype GetAttrOperation = GetAttrOperation(attrRequest: seq<u32>)
  datatype LookupOperation = LookupOperation(objectName: seq<byte>)
  datatype OpenClaim = Null(path: seq<byte>) | Previous(path: seq<byte>) | Delegate(path: seq<byte>)
  datatype OpenOperation =
    OpenOperation(seqid: u32, shareAccess: u32, shareDeny: u32, owner: seq<byte>, openClaim: OpenClaim)
  datatype OpenConfirmOperation = OpenConfirmOperation(openStateid: StateId, seqid: u32)
  datatype ReadOperation = ReadOperation(stateid: StateId, offset: u64, count: u32)
  datatype WriteOperation = WriteOperation(stateid: StateId, offset: u64, stable: u32, data: seq<byte>)

  datatype NfsOperation =
    | Access(access: AccessOperation)
    | Close(close: CloseOperation)
    | Commit(commit: CommitOperation)
    | Create(create: CreateOperation)
    | GetAttr(getattr: GetAttrOperation)
    | GetFh(unit: ())
    | Lookup(lookup: LookupOperation)
    | Lookupp(unit: ())
    | Open(open: OpenOperation)
    | OpenConfirm(confirm: OpenConfirmOperation)
    | Read(read: ReadOperation)
    | Write(write: WriteOperation)

  datatype NfsStatus =
    | Ok
    | Error
    | BadHandle
    | BadType
    | NoEnt
    | IoError
    | NoSpace
    | BadName
    | RoFs
    | StaleFileHandle
    | BadStateid
    | BadSeqid

  datatype OperationData =
    | AccessData(allowed: u32)
    | GetAttrData(attributes: NfsFileAttributes)
    | GetFhData(handle: NfsFileHandle)
    | ReadData(bytes: seq<byte>)
    | WriteData(count: u32)
    | OpenData(stateid: StateId)

  datatype OperationResult = OperationResult(status: NfsStatus, result: Option<OperationData>)

  datatype CompoundRequest =
    CompoundRequest(tag: seq<byte>, minorVersion: u32, operations: seq<NfsOperation>)

  datatype CompoundResponse =
    CompoundResponse(tag: seq<byte>, status: NfsStatus, results: seq<OperationResult>)
}
