/**
 Every message, request and response written out byte by byte: the numbers of
 the variants, the order of the fields, and how numbers, texts and lists are
 laid out. The codecs produce exactly these bytes.
 */
module WireLayout {
  import opened Wrappers
  import opened Words
  import opened Xdr
  import opened Rpc
  import opened RpcCodec
  import opened Protocol
  import opened ProtocolCodec

  //---------------------------------------------------------------------------
  // Numbers, bytes and texts
  //---------------------------------------------------------------------------

  // A u64, high word first.
  function HyperBytes(x: u64): seq<byte> {
    Be32(x / 0x1_0000_0000) + Be32(x % 0x1_0000_0000)
  }

  // Each byte in four, the last of them the byte.
  function Widened(s: seq<byte>): seq<byte> {
    if s == [] then [] else [0, 0, 0, s[0]] + Widened(s[1..])
  }

  // A byte list: how many, then the bytes widened.
  function ListBytes(s: seq<byte>): seq<byte>
    requires Fits(s)
  {
    Be32(|s|) + Widened(s)
  }

  // A text: its length, its bytes, and zeros up to a multiple of four.
  function TextBytes(s: seq<byte>): seq<byte>
    requires Fits(s)
  {
    Be32(|s|) + (s + Zeros(|s|))
  }

  function Zeros(n: nat): seq<byte> {
    match n % 4
    case 0 => []
    case 1 => [0, 0, 0]
    case 2 => [0, 0]
    case _ => [0]
  }

  function WordBytes(s: seq<u32>): seq<byte> {
    if s == [] then [] else Be32(s[0]) + WordBytes(s[1..])
  }

  lemma HyperLayout(x: u64)
    ensures U64().enc(x) == HyperBytes(x)
  {
    assert U64View(x).Some?;
  }

  lemma OctetLayout(b: byte)
    ensures Octet().enc(b) == [0, 0, 0, b]
  {
    assert OctetView(b) == Some(b);
    assert Be32(b) == [0, 0, 0, b];
  }

  lemma {:induction false} WidenedLayout(s: seq<byte>)
    ensures EncMany(Octet(), s) == Widened(s)
  {
    if s != [] {
      OctetLayout(s[0]);
      WidenedLayout(s[1..]);
    }
  }

  lemma ListLayout(s: seq<byte>)
    requires Fits(s)
    ensures Octets().enc(s) == ListBytes(s)
  {
    ArrayLayout(Octet(), s);
    WidenedLayout(s);
  }

  lemma TextLayout(s: seq<byte>)
    requires Fits(s)
    ensures Text().enc(s) == TextBytes(s)
  {
    assert Count<byte>()(s) == |s| && TextBody()(|s|) == Some(Xdr.Padded(|s|));
    assert Padding(|s|) == Zeros(|s|);
  }

  lemma {:induction false} WordsLayout(s: seq<u32>)
    ensures EncMany(U32(), s) == WordBytes(s)
  {
    if s != [] {
      WordsLayout(s[1..]);
    }
  }

  lemma StateIdLayout(id: StateId)
    ensures StateIdCodec().enc(id) == Widened(id)
  {
    assert StateIdView(id) == Some(id);
    WidenedLayout(id);
  }

  //---------------------------------------------------------------------------
  // Calls and replies
  //---------------------------------------------------------------------------

  function AuthBytes(a: OpaqueAuth): seq<byte>
    requires Fits(a.body)
  {
    Be32(a.flavor) + ListBytes(a.body)
  }

  function MsgBytes(msg: RpcMsg): seq<byte>
    requires FitsMsg(msg)
  {
    match msg.body
    case Call(c) =>
      Be32(msg.xid) + (Be32(0) + (Be32(c.rpcVers) + (Be32(c.prog) + (Be32(c.progVers) + (Be32(c.proc)
      + (AuthBytes(c.cred) + (AuthBytes(c.verf) + ListBytes(c.data))))))))
    case Reply(r) =>
      match r.data
      case Accepted(a) =>
        Be32(msg.xid) + (Be32(1) + (Be32(r.replyStat) + (Be32(0)
        + (AuthBytes(a.verf) + (Be32(a.stat) + ListBytes(a.data))))))
      case Rejected(a) =>
        Be32(msg.xid) + (Be32(1) + (Be32(r.replyStat) + (Be32(1) + (Be32(a.stat) + ListBytes(a.data)))))
  }

  lemma AuthIs(a: OpaqueAuth)
    requires Fits(a.body)
    ensures OpaqueAuthCodec().enc(a) == AuthBytes(a)
  {
    AuthLayout(a);
    ListLayout(a.body);
  }

  lemma RejectedLayout(xid: u32, stat: u32, a: RejectedReply)
    requires Fits(a.data)
    ensures RpcMsgCodec().enc(RpcMsg(xid, Reply(ReplyBody(stat, Rejected(a)))))
      == Be32(xid) + (Be32(1) + (Be32(stat) + (Be32(1) + (Be32(a.stat) + ListBytes(a.data)))))
  {
    var r := ReplyBody(stat, Rejected(a));
    assert RpcMsgView(RpcMsg(xid, Reply(r))).Some? && ReplyBodyView(r).Some? && RejectedReplyView(a).Some?;
    ArmLayout(RpcMsgBodyTag, RpcMsgBodyArm, ReplyBodyCodec(), ReplyView, ReplyBuild, Reply(r));
    ArmLayout(ReplyDataTag, ReplyDataArm, RejectedReplyCodec(), RejectedView, RejectedBuild, r.data);
    ListLayout(a.data);
  }

  // The bytes of every message that can be encoded.
  lemma MsgLayout(msg: RpcMsg)
    requires FitsMsg(msg)
    ensures RpcMsgCodec().enc(msg) == MsgBytes(msg)
  {
    match msg.body
    case Call(c) =>
      CallLayout(msg.xid, c);
      AuthIs(c.cred);
      AuthIs(c.verf);
      ListLayout(c.data);
    case Reply(r) =>
      match r.data
      case Accepted(a) =>
        AcceptedLayout(msg.xid, r.replyStat, a);
        AuthIs(a.verf);
        ListLayout(a.data);
      case Rejected(a) =>
        RejectedLayout(msg.xid, r.replyStat, a);
  }

  //---------------------------------------------------------------------------
  // Operations
  //---------------------------------------------------------------------------

  function AttributesBytes(a: NfsFileAttributes): seq<byte>
    requires FitsAttributes(a)
  {
    Be32(a.kind) + (Be32(a.mode) + (HyperBytes(a.size) + (HyperBytes(a.spaceUsed)
    + ((HyperBytes(a.timeAccess.seconds) + Be32(a.timeAccess.nseconds))
    + ((HyperBytes(a.timeModify.seconds) + Be32(a.timeModify.nseconds))
    + (TextBytes(a.owner) + TextBytes(a.group)))))))
  }

  function ClaimBytes(c: OpenClaim): seq<byte>
    requires Fits(c.path)
  {
    (match c case Null(_) => Be32(0) case Previous(_) => Be32(1) case Delegate(_) => Be32(2)) + TextBytes(c.path)
  }

  function OperationBytes(op: NfsOperation): seq<byte>
    requires FitsOperation(op)
  {
    match op
    case Access(a) => Be32(0) + Be32(a.access)
    case Close(a) => Be32(1) + (Be32(a.seqid) + Widened(a.openStateid))
    case Commit(a) => Be32(2) + (HyperBytes(a.offset) + Be32(a.count))
    case Create(a) => Be32(3) + (Be32(a.objectType) + (TextBytes(a.objectName) + AttributesBytes(a.attributes)))
    case GetAttr(a) => Be32(4) + (Be32(|a.attrRequest|) + WordBytes(a.attrRequest))
    case GetFh(_) => Be32(5)
    case Lookup(a) => Be32(6) + TextBytes(a.objectName)
    case Lookupp(_) => Be32(7)
    case Open(a) =>
      Be32(8) + (Be32(a.seqid) + (Be32(a.shareAccess) + (Be32(a.shareDeny)
      + (ListBytes(a.owner) + ClaimBytes(a.openClaim)))))
    case OpenConfirm(a) => Be32(9) + (Widened(a.openStateid) + Be32(a.seqid))
    case Read(a) => Be32(10) + (Widened(a.stateid) + (HyperBytes(a.offset) + Be32(a.count)))
    case Write(a) => Be32(11) + (Widened(a.stateid) + (HyperBytes(a.offset) + (Be32(a.stable) + ListBytes(a.data))))
  }

  function OperationsBytes(ops: seq<NfsOperation>): seq<byte>
    requires forall i :: 0 <= i < |ops| ==> FitsOperation(ops[i])
  {
    if ops == [] then [] else OperationBytes(ops[0]) + OperationsBytes(ops[1..])
  }

  function RequestBytes(r: CompoundRequest): seq<byte>
    requires FitsRequest(r)
  {
    TextBytes(r.tag) + (Be32(r.minorVersion) + (Be32(|r.operations|) + OperationsBytes(r.operations)))
  }

  lemma TimeLayout(t: NfsTime)
    ensures NfsTimeCodec().enc(t) == HyperBytes(t.seconds) + Be32(t.nseconds)
  {
    assert NfsTimeView(t).Some?;
    HyperLayout(t.seconds);
  }

  lemma AttributesLayout(a: NfsFileAttributes)
    requires FitsAttributes(a)
    ensures NfsFileAttributesCodec().enc(a) == AttributesBytes(a)
  {
    assert NfsFileAttributesView(a).Some?;
    HyperLayout(a.size);
    HyperLayout(a.spaceUsed);
    TimeLayout(a.timeAccess);
    TimeLayout(a.timeModify);
    TextLayout(a.owner);
    TextLayout(a.group);
  }

  lemma ClaimLayout(c: OpenClaim)
    requires Fits(c.path)
    ensures OpenClaimCodec().enc(c) == ClaimBytes(c)
  {
    TextLayout(c.path);
    match c
    case Null(_) => ArmLayout(OpenClaimTag, OpenClaimArm, Text(), NullView, NullBuild, c);
    case Previous(_) => ArmLayout(OpenClaimTag, OpenClaimArm, Text(), PreviousView, PreviousBuild, c);
    case Delegate(_) => ArmLayout(OpenClaimTag, OpenClaimArm, Text(), DelegateView, DelegateBuild, c);
  }

  lemma CreateLayout(a: CreateOperation)
    requires Fits(a.objectName) && FitsAttributes(a.attributes)
    ensures CreateOperationCodec().enc(a)
      == Be32(a.objectType) + (TextBytes(a.objectName) + AttributesBytes(a.attributes))
  {
    assert CreateOperationView(a).Some?;
    TextLayout(a.objectName);
    AttributesLayout(a.attributes);
  }

  lemma GetAttrLayout(a: GetAttrOperation)
    requires Fits(a.attrRequest)
    ensures GetAttrOperationCodec().enc(a) == Be32(|a.attrRequest|) + WordBytes(a.attrRequest)
  {
    assert GetAttrOperationView(a).Some?;
    ArrayLayout(U32(), a.attrRequest);
    WordsLayout(a.attrRequest);
  }

  lemma OpenLayout(a: OpenOperation)
    requires Fits(a.owner) && Fits(a.openClaim.path)
    ensures OpenOperationCodec().enc(a) ==
      Be32(a.seqid) + (Be32(a.shareAccess) + (Be32(a.shareDeny) + (ListBytes(a.owner) + ClaimBytes(a.openClaim))))
  {
    assert OpenOperationView(a).Some?;
    ListLayout(a.owner);
    ClaimLayout(a.openClaim);
  }

  lemma ReadLayout(a: ReadOperation)
    ensures ReadOperationCodec().enc(a) == Widened(a.stateid) + (HyperBytes(a.offset) + Be32(a.count))
  {
    assert ReadOperationView(a).Some?;
    StateIdLayout(a.stateid);
    HyperLayout(a.offset);
  }

  lemma WriteLayout(a: WriteOperation)
    requires Fits(a.data)
    ensures WriteOperationCodec().enc(a) ==
      Widened(a.stateid) + (HyperBytes(a.offset) + (Be32(a.stable) + ListBytes(a.data)))
  {
    assert WriteOperationView(a).Some?;
    StateIdLayout(a.stateid);
    HyperLayout(a.offset);
    ListLayout(a.data);
  }

  lemma CloseLayout(op: NfsOperation)
    requires op.Close?
    ensures NfsOperationCodec().enc(op) == OperationBytes(op)
  {
    CloseArmIs();
    ArmLayout(NfsOperationTag, NfsOperationArm, CloseOperationCodec(), CloseView, CloseBuild, op);
    assert CloseOperationView(op.close).Some?;
    StateIdLayout(op.close.openStateid);
  }

  lemma CommitLayout(op: NfsOperation)
    requires op.Commit?
    ensures NfsOperationCodec().enc(op) == OperationBytes(op)
  {
    CommitArmIs();
    ArmLayout(NfsOperationTag, NfsOperationArm, CommitOperationCodec(), CommitView, CommitBuild, op);
    assert CommitOperationView(op.commit).Some?;
    HyperLayout(op.commit.offset);
  }

  lemma OpenConfirmLayout(op: NfsOperation)
    requires op.OpenConfirm?
    ensures NfsOperationCodec().enc(op) == OperationBytes(op)
  {
    OpenConfirmArmIs();
    ArmLayout(NfsOperationTag, NfsOperationArm, OpenConfirmOperationCodec(), OpenConfirmView, OpenConfirmBuild, op);
    assert OpenConfirmOperationView(op.confirm).Some?;
    StateIdLayout(op.confirm.openStateid);
  }

  lemma PlainOperationLayout(op: NfsOperation)
    requires op.Access? || op.GetFh? || op.Lookup? || op.Lookupp?
    requires FitsOperation(op)
    ensures NfsOperationCodec().enc(op) == OperationBytes(op)
  {
    match op
    case Access(a) =>
      AccessArmIs();
      ArmLayout(NfsOperationTag, NfsOperationArm, AccessOperationCodec(), AccessView, AccessBuild, op);
      assert AccessOperationView(a).Some?;
    case GetFh(_) =>
      GetFhArmIs();
      ArmLayout(NfsOperationTag, NfsOperationArm, Void(), GetFhView, GetFhBuild, op);
    case Lookup(a) =>
      LookupArmIs();
      ArmLayout(NfsOperationTag, NfsOperationArm, LookupOperationCodec(), LookupView, LookupBuild, op);
      assert LookupOperationView(a).Some?;
      TextLayout(a.objectName);
    case Lookupp(_) =>
      LookuppArmIs();
      ArmLayout(NfsOperationTag, NfsOperationArm, Void(), LookuppView, LookuppBuild, op);
  }

  lemma NamingOperationLayout(op: NfsOperation)
    requires op.Create? || op.GetAttr? || op.Open?
    requires FitsOperation(op)
    ensures NfsOperationCodec().enc(op) == OperationBytes(op)
  {
    match op
    case Create(a) =>
      CreateArmIs();
      ArmLayout(NfsOperationTag, NfsOperationArm, CreateOperationCodec(), CreateView, CreateBuild, op);
      CreateLayout(a);
    case GetAttr(a) =>
      GetAttrArmIs();
      ArmLayout(NfsOperationTag, NfsOperationArm, GetAttrOperationCodec(), GetAttrView, GetAttrBuild, op);
      GetAttrLayout(a);
    case Open(a) =>
      OpenArmIs();
      ArmLayout(NfsOperationTag, NfsOperationArm, OpenOperationCodec(), OpenView, OpenBuild, op);
      OpenLayout(a);
  }

  lemma TransferLayout(op: NfsOperation)
    requires op.Read? || op.Write?
    requires FitsOperation(op)
    ensures NfsOperationCodec().enc(op) == OperationBytes(op)
  {
    match op
    case Read(a) =>
      ReadArmIs();
      ArmLayout(NfsOperationTag, NfsOperationArm, ReadOperationCodec(), ReadView, ReadBuild, op);
      ReadLayout(a);
    case Write(a) =>
      WriteArmIs();
      ArmLayout(NfsOperationTag, NfsOperationArm, WriteOperationCodec(), WriteView, WriteBuild, op);
      WriteLayout(a);
  }

  lemma OperationLayout(op: NfsOperation)
    requires FitsOperation(op)
    ensures NfsOperationCodec().enc(op) == OperationBytes(op)
  {
    match op {
      case Close(_) => CloseLayout(op);
      case Commit(_) => CommitLayout(op);
      case Create(_) => NamingOperationLayout(op);
      case GetAttr(_) => NamingOperationLayout(op);
      case Open(_) => NamingOperationLayout(op);
      case OpenConfirm(_) => OpenConfirmLayout(op);
      case Read(_) => TransferLayout(op);
      case Write(_) => TransferLayout(op);
      case _ => PlainOperationLayout(op);
    }
  }

  lemma {:induction false} OperationsLayout(ops: seq<NfsOperation>)
    requires forall i :: 0 <= i < |ops| ==> FitsOperation(ops[i])
    ensures EncMany(NfsOperationCodec(), ops) == OperationsBytes(ops)
  {
    if ops != [] {
      OperationLayout(ops[0]);
      OperationsLayout(ops[1..]);
    }
  }

  // The bytes of every request that can be encoded.
  lemma RequestLayout(r: CompoundRequest)
    requires FitsRequest(r)
    ensures CompoundRequestCodec().enc(r) == RequestBytes(r)
  {
    assert CompoundRequestView(r).Some?;
    TextLayout(r.tag);
    ArrayLayout(NfsOperationCodec(), r.operations);
    OperationsLayout(r.operations);
  }

  //---------------------------------------------------------------------------
  // Results
  //---------------------------------------------------------------------------

  // A status by its place in the declaration.
  function StatusBytes(s: NfsStatus): seq<byte> {
    match s
    case Ok => Be32(0)
    case Error => Be32(1)
    case BadHandle => Be32(2)
    case BadType => Be32(3)
    case NoEnt => Be32(4)
    case IoError => Be32(5)
    case NoSpace => Be32(6)
    case BadName => Be32(7)
    case RoFs => Be32(8)
    case StaleFileHandle => Be32(9)
    case BadStateid => Be32(10)
    case BadSeqid => Be32(11)
  }

  function DataBytes(d: OperationData): seq<byte>
    requires FitsData(d)
  {
    match d
    case AccessData(allowed) => Be32(0) + Be32(allowed)
    case GetAttrData(a) => Be32(1) + AttributesBytes(a)
    case GetFhData(h) => Be32(2) + ListBytes(h.data)
    case ReadData(bytes) => Be32(3) + ListBytes(bytes)
    case WriteData(count) => Be32(4) + Be32(count)
    case OpenData(id) => Be32(5) + Widened(id)
  }

  function ResultBytes(r: OperationResult): seq<byte>
    requires FitsResult(r)
  {
    StatusBytes(r.status) + (if r.result.None? then Be32(0) else Be32(1) + DataBytes(r.result.value))
  }

  function ResultsBytes(results: seq<OperationResult>): seq<byte>
    requires forall i :: 0 <= i < |results| ==> FitsResult(results[i])
  {
    if results == [] then [] else ResultBytes(results[0]) + ResultsBytes(results[1..])
  }

  function ResponseBytes(r: CompoundResponse): seq<byte>
    requires FitsResponse(r)
  {
    TextBytes(r.tag) + (StatusBytes(r.status) + (Be32(|r.results|) + ResultsBytes(r.results)))
  }

  lemma StatusLayout(s: NfsStatus)
    ensures NfsStatusCodec().enc(s) == StatusBytes(s)
  {
    assert NfsStatusView(s).Some?;
  }

  lemma NumberDataLayout(d: OperationData)
    requires d.AccessData? || d.WriteData?
    ensures OperationDataCodec().enc(d) == DataBytes(d)
  {
    if d.AccessData? {
      ArmLayout(OperationDataTag, OperationDataArm, U32(), AccessDataView, AccessDataBuild, d);
    } else {
      ArmLayout(OperationDataTag, OperationDataArm, U32(), WriteDataView, WriteDataBuild, d);
    }
  }

  lemma DataLayout(d: OperationData)
    requires FitsData(d)
    ensures OperationDataCodec().enc(d) == DataBytes(d)
  {
    match d
    case AccessData(_) => NumberDataLayout(d);
    case WriteData(_) => NumberDataLayout(d);
    case GetAttrData(a) =>
      ArmLayout(OperationDataTag, OperationDataArm, NfsFileAttributesCodec(), GetAttrDataView, GetAttrDataBuild, d);
      AttributesLayout(a);
    case GetFhData(h) =>
      ArmLayout(OperationDataTag, OperationDataArm, NfsFileHandleCodec(), GetFhDataView, GetFhDataBuild, d);
      assert NfsFileHandleView(h).Some?;
      ListLayout(h.data);
    case ReadData(bytes) =>
      ArmLayout(OperationDataTag, OperationDataArm, Octets(), ReadDataView, ReadDataBuild, d);
      ListLayout(bytes);
    case OpenData(id) =>
      ArmLayout(OperationDataTag, OperationDataArm, StateIdCodec(), OpenDataView, OpenDataBuild, d);
      StateIdLayout(id);
  }

  lemma OptionalLayout<T>(c: Codec<T>, v: Option<T>)
    ensures Optional(c).enc(v) == if v.None? then Be32(0) else Be32(1) + c.enc(v.value)
  {
    if v.Some? {
      ArmLayout(Present<T>(), OptionalBody(c), c, SomeView<T>(), SomeBuild<T>(), v);
    } else {
      assert OptionalBody(c)(0) == Some(Absent<T>());
    }
  }

  lemma ResultLayout(r: OperationResult)
    requires FitsResult(r)
    ensures OperationResultCodec().enc(r) == ResultBytes(r)
  {
    assert OperationResultView(r).Some?;
    StatusLayout(r.status);
    OptionalLayout(OperationDataCodec(), r.result);
    if r.result.Some? {
      DataLayout(r.result.value);
    }
  }

  lemma {:induction false} ResultsLayout(results: seq<OperationResult>)
    requires forall i :: 0 <= i < |results| ==> FitsResult(results[i])
    ensures EncMany(OperationResultCodec(), results) == ResultsBytes(results)
  {
    if results != [] {
      ResultLayout(results[0]);
      ResultsLayout(results[1..]);
    }
  }

  // The bytes of every response that can be encoded.
  lemma ResponseLayout(r: CompoundResponse)
    requires FitsResponse(r)
    ensures CompoundResponseCodec().enc(r) == ResponseBytes(r)
  {
    assert CompoundResponseView(r).Some?;
    TextLayout(r.tag);
    StatusLayout(r.status);
    ArrayLayout(OperationResultCodec(), r.results);
    ResultsLayout(r.results);
  }
}
