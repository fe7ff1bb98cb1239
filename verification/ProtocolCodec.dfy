/**
 The codec for compound requests and responses. Variants are numbered in
 declaration order, so a status travels as its position among the statuses and
 not as the number the enumeration gives it.
 */
module ProtocolCodec {
  import opened Wrappers
  import opened Words
  import opened Xdr
  import opened Protocol

  function StateIdView(id: StateId): Option<seq<byte>> { Some(id) }
  function StateIdBuild(s: seq<byte>): StateId { if |s| == 16 then s else seq(16, _ => 0) }
  function StateIdCodec(): Codec<StateId> { Via(Fixed(Octet(), 16), StateIdView, StateIdBuild) }

  lemma StateIdLawful()
    ensures Lawful(StateIdCodec())
  {
    OctetLawful();
    FixedLawful(Octet(), 16);
    ViaLawful(Fixed(Octet(), 16), StateIdView, StateIdBuild);
  }

  function StatusTag(s: NfsStatus): u32 {
    match s
    case Ok => 0
    case Error => 1
    case BadHandle => 2
    case BadType => 3
    case NoEnt => 4
    case IoError => 5
    case NoSpace => 6
    case BadName => 7
    case RoFs => 8
    case StaleFileHandle => 9
    case BadStateid => 10
    case BadSeqid => 11
  }

  function NfsStatusView(s: NfsStatus): Option<u32> { Some(StatusTag(s)) }
  function NfsStatusBuild(t: u32): NfsStatus {
    match t
    case 0 => NfsStatus.Ok
    case 1 => Error
    case 2 => BadHandle
    case 3 => BadType
    case 4 => NoEnt
    case 5 => IoError
    case 6 => NoSpace
    case 7 => BadName
    case 8 => RoFs
    case 9 => StaleFileHandle
    case 10 => BadStateid
    case _ => BadSeqid
  }

  function NfsStatusCodec(): Codec<NfsStatus> { Via(Below(12), NfsStatusView, NfsStatusBuild) }

  lemma StatusInverse(s: NfsStatus, t: u32)
    ensures NfsStatusBuild(StatusTag(s)) == s
    ensures t < 12 ==> StatusTag(NfsStatusBuild(t)) == t
  {
  }

  lemma NfsStatusLawful()
    ensures Lawful(NfsStatusCodec())
  {
    BelowLawful(12);
    forall s: NfsStatus ensures NfsStatusBuild(NfsStatusView(s).value) == s {
      StatusInverse(s, 0);
    }
    forall t: u32 | Below(12).valid(t) ensures NfsStatusView(NfsStatusBuild(t)) == Some(t) {
      StatusInverse(NfsStatus.Ok, t);
    }
    ViaLawful(Below(12), NfsStatusView, NfsStatusBuild);
  }

  lemma WordsLawful()
    ensures Lawful(Array(U32()))
  {
    U32Lawful();
    ArrayLawful(U32());
  }

  function NfsFileHandleView(v: NfsFileHandle): Option<seq<byte>> { Some(v.data) }
  function NfsFileHandleBuild(t: seq<byte>): NfsFileHandle { NfsFileHandle(t) }
  function NfsFileHandleCodec(): Codec<NfsFileHandle> { Via(Octets(), NfsFileHandleView, NfsFileHandleBuild) }

  lemma NfsFileHandleLawful()
    ensures Lawful(NfsFileHandleCodec())
  {
    OctetsLawful();
    ViaLawful(Octets(), NfsFileHandleView, NfsFileHandleBuild);
  }

  function NfsTimeView(v: NfsTime): Option<(u64, u32)> { Some((v.seconds, v.nseconds)) }
  function NfsTimeBuild(t: (u64, u32)): NfsTime { NfsTime(t.0, t.1) }
  function NfsTimeCodec(): Codec<NfsTime> { Via(Pair(U64(), U32()), NfsTimeView, NfsTimeBuild) }

  lemma NfsTimeLawful()
    ensures Lawful(NfsTimeCodec())
  {
    U64Lawful();
    U32Lawful();
    PairLawful(U64(), U32());
    ViaLawful(Pair(U64(), U32()), NfsTimeView, NfsTimeBuild);
  }

  type NfsFileAttributesFields = (u32, (u32, (u64, (u64, (NfsTime, (NfsTime, (seq<byte>, seq<byte>)))))))

  function NfsFileAttributesView(v: NfsFileAttributes): Option<NfsFileAttributesFields> {
    Some((v.kind, (v.mode, (v.size, (v.spaceUsed, (v.timeAccess, (v.timeModify, (v.owner, v.group))))))))
  }
  function NfsFileAttributesBuild(t: NfsFileAttributesFields): NfsFileAttributes {
    NfsFileAttributes(t.0, t.1.0, t.1.1.0, t.1.1.1.0, t.1.1.1.1.0, t.1.1.1.1.1.0, t.1.1.1.1.1.1.0, t.1.1.1.1.1.1.1)
  }
  function NfsFileAttributesCodec(): Codec<NfsFileAttributes> {
    Via(
      Pair(U32(), Pair(U32(), Pair(U64(), Pair(U64(), Pair(NfsTimeCodec(), Pair(NfsTimeCodec(),
           Pair(Text(), Text()))))))),
      NfsFileAttributesView, NfsFileAttributesBuild)
  }

  lemma NfsFileAttributesLawful()
    ensures Lawful(NfsFileAttributesCodec())
  {
    U32Lawful();
    U64Lawful();
    NfsTimeLawful();
    TextLawful();
    PairLawful(Text(), Text());
    var last2 := Pair(Text(), Text());
    PairLawful(NfsTimeCodec(), last2);
    var last3 := Pair(NfsTimeCodec(), last2);
    PairLawful(NfsTimeCodec(), last3);
    var last4 := Pair(NfsTimeCodec(), last3);
    PairLawful(U64(), last4);
    var last5 := Pair(U64(), last4);
    PairLawful(U64(), last5);
    var last6 := Pair(U64(), last5);
    PairLawful(U32(), last6);
    var last7 := Pair(U32(), last6);
    PairLawful(U32(), last7);
    var last8 := Pair(U32(), last7);
    ViaLawful(last8, NfsFileAttributesView, NfsFileAttributesBuild);
  }

  function AccessOperationView(v: AccessOperation): Option<u32> { Some(v.access) }
  function AccessOperationBuild(t: u32): AccessOperation { AccessOperation(t) }
  function AccessOperationCodec(): Codec<AccessOperation> { Via(U32(), AccessOperationView, AccessOperationBuild) }

  lemma AccessOperationLawful()
    ensures Lawful(AccessOperationCodec())
  {
    U32Lawful();
    ViaLawful(U32(), AccessOperationView, AccessOperationBuild);
  }

  type CloseOperationFields = (u32, StateId)

  function CloseOperationView(v: CloseOperation): Option<CloseOperationFields> { Some((v.seqid, v.openStateid)) }
  function CloseOperationBuild(t: CloseOperationFields): CloseOperation { CloseOperation(t.0, t.1) }
  function CloseOperationCodec(): Codec<CloseOperation> {
    Via(Pair(U32(), StateIdCodec()), CloseOperationView, CloseOperationBuild)
  }

  lemma CloseOperationLawful()
    ensures Lawful(CloseOperationCodec())
  {
    U32Lawful();
    StateIdLawful();
    PairLawful(U32(), StateIdCodec());
    ViaLawful(Pair(U32(), StateIdCodec()), CloseOperationView, CloseOperationBuild);
  }

  type CommitOperationFields = (u64, u32)

  function CommitOperationView(v: CommitOperation): Option<CommitOperationFields> { Some((v.offset, v.count)) }
  function CommitOperationBuild(t: CommitOperationFields): CommitOperation { CommitOperation(t.0, t.1) }
  function CommitOperationCodec(): Codec<CommitOperation> {
    Via(Pair(U64(), U32()), CommitOperationView, CommitOperationBuild)
  }

  lemma CommitOperationLawful()
    ensures Lawful(CommitOperationCodec())
  {
    U64Lawful();
    U32Lawful();
    PairLawful(U64(), U32());
    ViaLawful(Pair(U64(), U32()), CommitOperationView, CommitOperationBuild);
  }

  type CreateOperationFields = (u32, (seq<byte>, NfsFileAttributes))

  function CreateOperationView(v: CreateOperation): Option<CreateOperationFields> {
    Some((v.objectType, (v.objectName, v.attributes)))
  }
  function CreateOperationBuild(t: CreateOperationFields): CreateOperation { CreateOperation(t.0, t.1.0, t.1.1) }
  function CreateOperationCodec(): Codec<CreateOperation> {
    Via(Pair(U32(), Pair(Text(), NfsFileAttributesCodec())), CreateOperationView, CreateOperationBuild)
  }

  lemma CreateOperationLawful()
    ensures Lawful(CreateOperationCodec())
  {
    U32Lawful();
    TextLawful();
    NfsFileAttributesLawful();
    PairLawful(Text(), NfsFileAttributesCodec());
    PairLawful(U32(), Pair(Text(), NfsFileAttributesCodec()));
    ViaLawful(Pair(U32(), Pair(Text(), NfsFileAttributesCodec())), CreateOperationView, CreateOperationBuild);
  }

  function GetAttrOperationView(v: GetAttrOperation): Option<seq<u32>> { Some(v.attrRequest) }
  function GetAttrOperationBuild(t: seq<u32>): GetAttrOperation { GetAttrOperation(t) }
  function GetAttrOperationCodec(): Codec<GetAttrOperation> {
    Via(Array(U32()), GetAttrOperationView, GetAttrOperationBuild)
  }

  lemma GetAttrOperationLawful()
    ensures Lawful(GetAttrOperationCodec())
  {
    WordsLawful();
    ViaLawful(Array(U32()), GetAttrOperationView, GetAttrOperationBuild);
  }

  function LookupOperationView(v: LookupOperation): Option<seq<byte>> { Some(v.objectName) }
  function LookupOperationBuild(t: seq<byte>): LookupOperation { LookupOperation(t) }
  function LookupOperationCodec(): Codec<LookupOperation> { Via(Text(), LookupOperationView, LookupOperationBuild) }

  lemma LookupOperationLawful()
    ensures Lawful(LookupOperationCodec())
  {
    TextLawful();
    ViaLawful(Text(), LookupOperationView, LookupOperationBuild);
  }

  function OpenClaimTag(v: OpenClaim): u32 {
    match v
    case Null(_) => 0
    case Previous(_) => 1
    case Delegate(_) => 2
  }

  function NullView(v: OpenClaim): Option<seq<byte>> { if v.Null? then Some(v.path) else None }
  function NullBuild(a: seq<byte>): OpenClaim { OpenClaim.Null(a) }
  function PreviousView(v: OpenClaim): Option<seq<byte>> { if v.Previous? then Some(v.path) else None }
  function PreviousBuild(a: seq<byte>): OpenClaim { OpenClaim.Previous(a) }
  function DelegateView(v: OpenClaim): Option<seq<byte>> { if v.Delegate? then Some(v.path) else None }
  function DelegateBuild(a: seq<byte>): OpenClaim { OpenClaim.Delegate(a) }

  function OpenClaimArm(t: u32): Option<Codec<OpenClaim>> {
    if t == 0 then Some(Via(Text(), NullView, NullBuild))
    else if t == 1 then Some(Via(Text(), PreviousView, PreviousBuild))
    else if t == 2 then Some(Via(Text(), DelegateView, DelegateBuild))
    else None
  }

  function OpenClaimCodec(): Codec<OpenClaim> { Union(OpenClaimTag, OpenClaimArm) }

  lemma OpenClaimArmsLawful(t: u32)
    requires t < 3
    ensures GoodArm(OpenClaimTag, t, OpenClaimArm(t).value)
  {
    if t == 0 {
      TextLawful();
      ArmLawful(OpenClaimTag, t, Text(), NullView, NullBuild);
    } else if t == 1 {
      TextLawful();
      ArmLawful(OpenClaimTag, t, Text(), PreviousView, PreviousBuild);
    } else {
      TextLawful();
      ArmLawful(OpenClaimTag, t, Text(), DelegateView, DelegateBuild);
    }
  }

  lemma OpenClaimLawful()
    ensures Lawful(OpenClaimCodec())
  {
    forall t: u32 | OpenClaimArm(t).Some? ensures GoodArm(OpenClaimTag, t, OpenClaimArm(t).value) {
      OpenClaimArmsLawful(t);
    }
    UnionLawful(OpenClaimTag, OpenClaimArm);
  }

  type OpenOperationFields = (u32, (u32, (u32, (seq<byte>, OpenClaim))))

  function OpenOperationView(v: OpenOperation): Option<OpenOperationFields> {
    Some((v.seqid, (v.shareAccess, (v.shareDeny, (v.owner, v.openClaim)))))
  }
  function OpenOperationBuild(t: OpenOperationFields): OpenOperation {
    OpenOperation(t.0, t.1.0, t.1.1.0, t.1.1.1.0, t.1.1.1.1)
  }
  function OpenOperationCodec(): Codec<OpenOperation> {
    Via(
      Pair(U32(), Pair(U32(), Pair(U32(), Pair(Octets(), OpenClaimCodec())))),
      OpenOperationView, OpenOperationBuild)
  }

  lemma OpenOperationLawful()
    ensures Lawful(OpenOperationCodec())
  {
    U32Lawful();
    OctetsLawful();
    OpenClaimLawful();
    PairLawful(Octets(), OpenClaimCodec());
    var last2 := Pair(Octets(), OpenClaimCodec());
    PairLawful(U32(), last2);
    var last3 := Pair(U32(), last2);
    PairLawful(U32(), last3);
    var last4 := Pair(U32(), last3);
    PairLawful(U32(), last4);
    var last5 := Pair(U32(), last4);
    ViaLawful(last5, OpenOperationView, OpenOperationBuild);
  }

  type OpenConfirmOperationFields = (StateId, u32)

  function OpenConfirmOperationView(v: OpenConfirmOperation): Option<OpenConfirmOperationFields> {
    Some((v.openStateid, v.seqid))
  }
  function OpenConfirmOperationBuild(t: OpenConfirmOperationFields): OpenConfirmOperation {
    OpenConfirmOperation(t.0, t.1)
  }
  function OpenConfirmOperationCodec(): Codec<OpenConfirmOperation> {
    Via(Pair(StateIdCodec(), U32()), OpenConfirmOperationView, OpenConfirmOperationBuild)
  }

  lemma OpenConfirmOperationLawful()
    ensures Lawful(OpenConfirmOperationCodec())
  {
    StateIdLawful();
    U32Lawful();
    PairLawful(StateIdCodec(), U32());
    ViaLawful(Pair(StateIdCodec(), U32()), OpenConfirmOperationView, OpenConfirmOperationBuild);
  }

  type ReadOperationFields = (StateId, (u64, u32))

  function ReadOperationView(v: ReadOperation): Option<ReadOperationFields> { Some((v.stateid, (v.offset, v.count))) }
  function ReadOperationBuild(t: ReadOperationFields): ReadOperation { ReadOperation(t.0, t.1.0, t.1.1) }
  function ReadOperationCodec(): Codec<ReadOperation> {
    Via(Pair(StateIdCodec(), Pair(U64(), U32())), ReadOperationView, ReadOperationBuild)
  }

  lemma ReadOperationLawful()
    ensures Lawful(ReadOperationCodec())
  {
    StateIdLawful();
    U64Lawful();
    U32Lawful();
    PairLawful(U64(), U32());
    PairLawful(StateIdCodec(), Pair(U64(), U32()));
    ViaLawful(Pair(StateIdCodec(), Pair(U64(), U32())), ReadOperationView, ReadOperationBuild);
  }

  type WriteOperationFields = (StateId, (u64, (u32, seq<byte>)))

  function WriteOperationView(v: WriteOperation): Option<WriteOperationFields> {
    Some((v.stateid, (v.offset, (v.stable, v.data))))
  }
  function WriteOperationBuild(t: WriteOperationFields): WriteOperation {
    WriteOperation(t.0, t.1.0, t.1.1.0, t.1.1.1)
  }
  function WriteOperationCodec(): Codec<WriteOperation> {
    Via(Pair(StateIdCodec(), Pair(U64(), Pair(U32(), Octets()))), WriteOperationView, WriteOperationBuild)
  }

  lemma WriteOperationLawful()
    ensures Lawful(WriteOperationCodec())
  {
    StateIdLawful();
    U64Lawful();
    U32Lawful();
    OctetsLawful();
    PairLawful(U32(), Octets());
    PairLawful(U64(), Pair(U32(), Octets()));
    PairLawful(StateIdCodec(), Pair(U64(), Pair(U32(), Octets())));
    ViaLawful(Pair(StateIdCodec(), Pair(U64(), Pair(U32(), Octets()))), WriteOperationView, WriteOperationBuild);
  }

  function NfsOperationTag(v: NfsOperation): u32 {
    match v
    case Access(_) => 0
    case Close(_) => 1
    case Commit(_) => 2
    case Create(_) => 3
    case GetAttr(_) => 4
    case GetFh(_) => 5
    case Lookup(_) => 6
    case Lookupp(_) => 7
    case Open(_) => 8
    case OpenConfirm(_) => 9
    case Read(_) => 10
    case Write(_) => 11
  }

  function AccessView(v: NfsOperation): Option<AccessOperation> { if v.Access? then Some(v.access) else None }
  function AccessBuild(a: AccessOperation): NfsOperation { NfsOperation.Access(a) }
  function CloseView(v: NfsOperation): Option<CloseOperation> { if v.Close? then Some(v.close) else None }
  function CloseBuild(a: CloseOperation): NfsOperation { NfsOperation.Close(a) }
  function CommitView(v: NfsOperation): Option<CommitOperation> { if v.Commit? then Some(v.commit) else None }
  function CommitBuild(a: CommitOperation): NfsOperation { NfsOperation.Commit(a) }
  function CreateView(v: NfsOperation): Option<CreateOperation> { if v.Create? then Some(v.create) else None }
  function CreateBuild(a: CreateOperation): NfsOperation { NfsOperation.Create(a) }
  function GetAttrView(v: NfsOperation): Option<GetAttrOperation> { if v.GetAttr? then Some(v.getattr) else None }
  function GetAttrBuild(a: GetAttrOperation): NfsOperation { NfsOperation.GetAttr(a) }
  function GetFhView(v: NfsOperation): Option<()> { if v.GetFh? then Some(v.unit) else None }
  function GetFhBuild(a: ()): NfsOperation { NfsOperation.GetFh(a) }
  function LookupView(v: NfsOperation): Option<LookupOperation> { if v.Lookup? then Some(v.lookup) else None }
  function LookupBuild(a: LookupOperation): NfsOperation { NfsOperation.Lookup(a) }
  function LookuppView(v: NfsOperation): Option<()> { if v.Lookupp? then Some(v.unit) else None }
  function LookuppBuild(a: ()): NfsOperation { NfsOperation.Lookupp(a) }
  function OpenView(v: NfsOperation): Option<OpenOperation> { if v.Open? then Some(v.open) else None }
  function OpenBuild(a: OpenOperation): NfsOperation { NfsOperation.Open(a) }
  function OpenConfirmView(v: NfsOperation): Option<OpenConfirmOperation> {
    if v.OpenConfirm? then Some(v.confirm) else None
  }
  function OpenConfirmBuild(a: OpenConfirmOperation): NfsOperation { NfsOperation.OpenConfirm(a) }
  function ReadView(v: NfsOperation): Option<ReadOperation> { if v.Read? then Some(v.read) else None }
  function ReadBuild(a: ReadOperation): NfsOperation { NfsOperation.Read(a) }
  function WriteView(v: NfsOperation): Option<WriteOperation> { if v.Write? then Some(v.write) else None }
  function WriteBuild(a: WriteOperation): NfsOperation { NfsOperation.Write(a) }

  function NfsOperationArm(t: u32): (r: Option<Codec<NfsOperation>>)
    ensures r.Some? <==> t < 12
  {
    if t == 0 then Some(Via(AccessOperationCodec(), AccessView, AccessBuild))
    else if t == 1 then Some(Via(CloseOperationCodec(), CloseView, CloseBuild))
    else if t == 2 then Some(Via(CommitOperationCodec(), CommitView, CommitBuild))
    else if t == 3 then Some(Via(CreateOperationCodec(), CreateView, CreateBuild))
    else if t == 4 then Some(Via(GetAttrOperationCodec(), GetAttrView, GetAttrBuild))
    else if t == 5 then Some(Via(Void(), GetFhView, GetFhBuild))
    else if t == 6 then Some(Via(LookupOperationCodec(), LookupView, LookupBuild))
    else if t == 7 then Some(Via(Void(), LookuppView, LookuppBuild))
    else if t == 8 then Some(Via(OpenOperationCodec(), OpenView, OpenBuild))
    else if t == 9 then Some(Via(OpenConfirmOperationCodec(), OpenConfirmView, OpenConfirmBuild))
    else if t == 10 then Some(Via(ReadOperationCodec(), ReadView, ReadBuild))
    else if t == 11 then Some(Via(WriteOperationCodec(), WriteView, WriteBuild))
    else None
  }

  function NfsOperationCodec(): Codec<NfsOperation> { Union(NfsOperationTag, NfsOperationArm) }

  lemma AccessArmIs()
    ensures NfsOperationArm(0) == Some(Via(AccessOperationCodec(), AccessView, AccessBuild))
  {
  }

  lemma AccessArm(t: u32)
    requires t == 0
    ensures GoodArm(NfsOperationTag, t, NfsOperationArm(t).value)
  {
    AccessArmIs();
    AccessOperationLawful();
    ArmLawful(NfsOperationTag, 0, AccessOperationCodec(), AccessView, AccessBuild);
  }

  lemma CloseArmIs()
    ensures NfsOperationArm(1) == Some(Via(CloseOperationCodec(), CloseView, CloseBuild))
  {
  }

  lemma CloseArm(t: u32)
    requires t == 1
    ensures GoodArm(NfsOperationTag, t, NfsOperationArm(t).value)
  {
    CloseArmIs();
    CloseOperationLawful();
    ArmLawful(NfsOperationTag, 1, CloseOperationCodec(), CloseView, CloseBuild);
  }

  lemma CommitArmIs()
    ensures NfsOperationArm(2) == Some(Via(CommitOperationCodec(), CommitView, CommitBuild))
  {
  }

  lemma CommitArm(t: u32)
    requires t == 2
    ensures GoodArm(NfsOperationTag, t, NfsOperationArm(t).value)
  {
    CommitArmIs();
    CommitOperationLawful();
    ArmLawful(NfsOperationTag, 2, CommitOperationCodec(), CommitView, CommitBuild);
  }

  lemma CreateArmIs()
    ensures NfsOperationArm(3) == Some(Via(CreateOperationCodec(), CreateView, CreateBuild))
  {
  }

  lemma CreateArm(t: u32)
    requires t == 3
    ensures GoodArm(NfsOperationTag, t, NfsOperationArm(t).value)
  {
    CreateArmIs();
    CreateOperationLawful();
    ArmLawful(NfsOperationTag, 3, CreateOperationCodec(), CreateView, CreateBuild);
  }

  lemma GetAttrArmIs()
    ensures NfsOperationArm(4) == Some(Via(GetAttrOperationCodec(), GetAttrView, GetAttrBuild))
  {
  }

  lemma GetAttrArm(t: u32)
    requires t == 4
    ensures GoodArm(NfsOperationTag, t, NfsOperationArm(t).value)
  {
    GetAttrArmIs();
    GetAttrOperationLawful();
    ArmLawful(NfsOperationTag, 4, GetAttrOperationCodec(), GetAttrView, GetAttrBuild);
  }

  lemma GetFhArmIs()
    ensures NfsOperationArm(5) == Some(Via(Void(), GetFhView, GetFhBuild))
  {
  }

  lemma GetFhArm(t: u32)
    requires t == 5
    ensures GoodArm(NfsOperationTag, t, NfsOperationArm(t).value)
  {
    GetFhArmIs();
    VoidLawful();
    ArmLawful(NfsOperationTag, 5, Void(), GetFhView, GetFhBuild);
  }

  lemma LookupArmIs()
    ensures NfsOperationArm(6) == Some(Via(LookupOperationCodec(), LookupView, LookupBuild))
  {
  }

  lemma LookupArm(t: u32)
    requires t == 6
    ensures GoodArm(NfsOperationTag, t, NfsOperationArm(t).value)
  {
    LookupArmIs();
    LookupOperationLawful();
    ArmLawful(NfsOperationTag, 6, LookupOperationCodec(), LookupView, LookupBuild);
  }

  lemma LookuppArmIs()
    ensures NfsOperationArm(7) == Some(Via(Void(), LookuppView, LookuppBuild))
  {
  }

  lemma LookuppArm(t: u32)
    requires t == 7
    ensures GoodArm(NfsOperationTag, t, NfsOperationArm(t).value)
  {
    LookuppArmIs();
    VoidLawful();
    ArmLawful(NfsOperationTag, 7, Void(), LookuppView, LookuppBuild);
  }

  lemma OpenArmIs()
    ensures NfsOperationArm(8) == Some(Via(OpenOperationCodec(), OpenView, OpenBuild))
  {
  }

  lemma OpenArm(t: u32)
    requires t == 8
    ensures GoodArm(NfsOperationTag, t, NfsOperationArm(t).value)
  {
    OpenArmIs();
    OpenOperationLawful();
    ArmLawful(NfsOperationTag, 8, OpenOperationCodec(), OpenView, OpenBuild);
  }

  lemma OpenConfirmArmIs()
    ensures NfsOperationArm(9) == Some(Via(OpenConfirmOperationCodec(), OpenConfirmView, OpenConfirmBuild))
  {
  }

  lemma OpenConfirmArm(t: u32)
    requires t == 9
    ensures GoodArm(NfsOperationTag, t, NfsOperationArm(t).value)
  {
    OpenConfirmArmIs();
    OpenConfirmOperationLawful();
    ArmLawful(NfsOperationTag, 9, OpenConfirmOperationCodec(), OpenConfirmView, OpenConfirmBuild);
  }

  lemma ReadArmIs()
    ensures NfsOperationArm(10) == Some(Via(ReadOperationCodec(), ReadView, ReadBuild))
  {
  }

  lemma ReadArm(t: u32)
    requires t == 10
    ensures GoodArm(NfsOperationTag, t, NfsOperationArm(t).value)
  {
    ReadArmIs();
    ReadOperationLawful();
    ArmLawful(NfsOperationTag, 10, ReadOperationCodec(), ReadView, ReadBuild);
  }

  lemma WriteArmIs()
    ensures NfsOperationArm(11) == Some(Via(WriteOperationCodec(), WriteView, WriteBuild))
  {
  }

  lemma WriteArm(t: u32)
    requires t == 11
    ensures GoodArm(NfsOperationTag, t, NfsOperationArm(t).value)
  {
    WriteArmIs();
    WriteOperationLawful();
    ArmLawful(NfsOperationTag, 11, WriteOperationCodec(), WriteView, WriteBuild);
  }

  lemma LowOperationArms(t: u32)
    requires t < 6
    ensures GoodArm(NfsOperationTag, t, NfsOperationArm(t).value)
  {
    match t {
      case 0 => AccessArm(t);
      case 1 => CloseArm(t);
      case 2 => CommitArm(t);
      case 3 => CreateArm(t);
      case 4 => GetAttrArm(t);
      case _ => GetFhArm(t);
    }
  }

  lemma HighOperationArms(t: u32)
    requires 6 <= t < 12
    ensures GoodArm(NfsOperationTag, t, NfsOperationArm(t).value)
  {
    match t {
      case 6 => LookupArm(t);
      case 7 => LookuppArm(t);
      case 8 => OpenArm(t);
      case 9 => OpenConfirmArm(t);
      case 10 => ReadArm(t);
      case _ => WriteArm(t);
    }
  }

  lemma NfsOperationArms(t: u32)
    requires t < 12
    ensures GoodArm(NfsOperationTag, t, NfsOperationArm(t).value)
  {
    if t < 6 {
      LowOperationArms(t);
    } else {
      HighOperationArms(t);
    }
  }

  lemma NfsOperationLawful()
    ensures Lawful(NfsOperationCodec())
  {
    forall t: u32 | NfsOperationArm(t).Some? ensures GoodArm(NfsOperationTag, t, NfsOperationArm(t).value) {
      NfsOperationArms(t);
    }
    UnionLawful(NfsOperationTag, NfsOperationArm);
  }

  function OperationDataTag(v: OperationData): u32 {
    match v
    case AccessData(_) => 0
    case GetAttrData(_) => 1
    case GetFhData(_) => 2
    case ReadData(_) => 3
    case WriteData(_) => 4
    case OpenData(_) => 5
  }

  function AccessDataView(v: OperationData): Option<u32> { if v.AccessData? then Some(v.allowed) else None }
  function AccessDataBuild(a: u32): OperationData { OperationData.AccessData(a) }
  function GetAttrDataView(v: OperationData): Option<NfsFileAttributes> {
    if v.GetAttrData? then Some(v.attributes) else None
  }
  function GetAttrDataBuild(a: NfsFileAttributes): OperationData { OperationData.GetAttrData(a) }
  function GetFhDataView(v: OperationData): Option<NfsFileHandle> { if v.GetFhData? then Some(v.handle) else None }
  function GetFhDataBuild(a: NfsFileHandle): OperationData { OperationData.GetFhData(a) }
  function ReadDataView(v: OperationData): Option<seq<byte>> { if v.ReadData? then Some(v.bytes) else None }
  function ReadDataBuild(a: seq<byte>): OperationData { OperationData.ReadData(a) }
  function WriteDataView(v: OperationData): Option<u32> { if v.WriteData? then Some(v.count) else None }
  function WriteDataBuild(a: u32): OperationData { OperationData.WriteData(a) }
  function OpenDataView(v: OperationData): Option<StateId> { if v.OpenData? then Some(v.stateid) else None }
  function OpenDataBuild(a: StateId): OperationData { OperationData.OpenData(a) }

  function OperationDataArm(t: u32): Option<Codec<OperationData>> {
    if t == 0 then Some(Via(U32(), AccessDataView, AccessDataBuild))
    else if t == 1 then Some(Via(NfsFileAttributesCodec(), GetAttrDataView, GetAttrDataBuild))
    else if t == 2 then Some(Via(NfsFileHandleCodec(), GetFhDataView, GetFhDataBuild))
    else if t == 3 then Some(Via(Octets(), ReadDataView, ReadDataBuild))
    else if t == 4 then Some(Via(U32(), WriteDataView, WriteDataBuild))
    else if t == 5 then Some(Via(StateIdCodec(), OpenDataView, OpenDataBuild))
    else None
  }

  function OperationDataCodec(): Codec<OperationData> { Union(OperationDataTag, OperationDataArm) }

  lemma AccessDataArm()
    ensures GoodArm(OperationDataTag, 0, Via(U32(), AccessDataView, AccessDataBuild))
  {
    U32Lawful();
    ArmLawful(OperationDataTag, 0, U32(), AccessDataView, AccessDataBuild);
  }

  lemma GetAttrDataArm()
    ensures GoodArm(OperationDataTag, 1, Via(NfsFileAttributesCodec(), GetAttrDataView, GetAttrDataBuild))
  {
    NfsFileAttributesLawful();
    ArmLawful(OperationDataTag, 1, NfsFileAttributesCodec(), GetAttrDataView, GetAttrDataBuild);
  }

  lemma GetFhDataArm()
    ensures GoodArm(OperationDataTag, 2, Via(NfsFileHandleCodec(), GetFhDataView, GetFhDataBuild))
  {
    NfsFileHandleLawful();
    ArmLawful(OperationDataTag, 2, NfsFileHandleCodec(), GetFhDataView, GetFhDataBuild);
  }

  lemma ReadDataArm()
    ensures GoodArm(OperationDataTag, 3, Via(Octets(), ReadDataView, ReadDataBuild))
  {
    OctetsLawful();
    ArmLawful(OperationDataTag, 3, Octets(), ReadDataView, ReadDataBuild);
  }

  lemma WriteDataArm()
    ensures GoodArm(OperationDataTag, 4, Via(U32(), WriteDataView, WriteDataBuild))
  {
    U32Lawful();
    ArmLawful(OperationDataTag, 4, U32(), WriteDataView, WriteDataBuild);
  }

  lemma OpenDataArm()
    ensures GoodArm(OperationDataTag, 5, Via(StateIdCodec(), OpenDataView, OpenDataBuild))
  {
    StateIdLawful();
    ArmLawful(OperationDataTag, 5, StateIdCodec(), OpenDataView, OpenDataBuild);
  }

  lemma OperationDataArms(t: u32)
    requires OperationDataArm(t).Some?
    ensures GoodArm(OperationDataTag, t, OperationDataArm(t).value)
  {
    match t {
      case 0 => AccessDataArm();
      case 1 => GetAttrDataArm();
      case 2 => GetFhDataArm();
      case 3 => ReadDataArm();
      case 4 => WriteDataArm();
      case _ => OpenDataArm();
    }
  }

  lemma OperationDataLawful()
    ensures Lawful(OperationDataCodec())
  {
    forall t: u32 | OperationDataArm(t).Some? ensures GoodArm(OperationDataTag, t, OperationDataArm(t).value) {
      OperationDataArms(t);
    }
    UnionLawful(OperationDataTag, OperationDataArm);
  }

  type OperationResultFields = (NfsStatus, Option<OperationData>)

  function OperationResultView(v: OperationResult): Option<OperationResultFields> { Some((v.status, v.result)) }
  function OperationResultBuild(t: OperationResultFields): OperationResult { OperationResult(t.0, t.1) }
  function OperationResultCodec(): Codec<OperationResult> {
    Via(Pair(NfsStatusCodec(), Optional(OperationDataCodec())), OperationResultView, OperationResultBuild)
  }

  lemma OptionalDataLawful()
    ensures Lawful(Optional(OperationDataCodec()))
  {
    OperationDataLawful();
    OptionalLawful(OperationDataCodec());
  }

  lemma OperationResultLawful()
    ensures Lawful(OperationResultCodec())
  {
    NfsStatusLawful();
    OptionalDataLawful();
    PairLawful(NfsStatusCodec(), Optional(OperationDataCodec()));
    ViaLawful(Pair(NfsStatusCodec(), Optional(OperationDataCodec())), OperationResultView, OperationResultBuild);
  }

  type CompoundRequestFields = (seq<byte>, (u32, seq<NfsOperation>))

  function CompoundRequestView(v: CompoundRequest): Option<CompoundRequestFields> {
    Some((v.tag, (v.minorVersion, v.operations)))
  }
  function CompoundRequestBuild(t: CompoundRequestFields): CompoundRequest { CompoundRequest(t.0, t.1.0, t.1.1) }
  function CompoundRequestCodec(): Codec<CompoundRequest> {
    Via(Pair(Text(), Pair(U32(), Array(NfsOperationCodec()))), CompoundRequestView, CompoundRequestBuild)
  }

  lemma OperationsLawful()
    ensures Lawful(Array(NfsOperationCodec()))
  {
    NfsOperationLawful();
    ArrayLawful(NfsOperationCodec());
  }

  lemma CompoundRequestLawful()
    ensures Lawful(CompoundRequestCodec())
  {
    TextLawful();
    U32Lawful();
    OperationsLawful();
    PairLawful(U32(), Array(NfsOperationCodec()));
    PairLawful(Text(), Pair(U32(), Array(NfsOperationCodec())));
    ViaLawful(Pair(Text(), Pair(U32(), Array(NfsOperationCodec()))), CompoundRequestView, CompoundRequestBuild);
  }

  type CompoundResponseFields = (seq<byte>, (NfsStatus, seq<OperationResult>))

  function CompoundResponseView(v: CompoundResponse): Option<CompoundResponseFields> {
    Some((v.tag, (v.status, v.results)))
  }
  function CompoundResponseBuild(t: CompoundResponseFields): CompoundResponse { CompoundResponse(t.0, t.1.0, t.1.1) }
  function CompoundResponseCodec(): Codec<CompoundResponse> {
    Via(
      Pair(Text(), Pair(NfsStatusCodec(), Array(OperationResultCodec()))),
      CompoundResponseView, CompoundResponseBuild)
  }

  lemma ResultsLawful()
    ensures Lawful(Array(OperationResultCodec()))
  {
    OperationResultLawful();
    ArrayLawful(OperationResultCodec());
  }

  lemma CompoundResponseLawful()
    ensures Lawful(CompoundResponseCodec())
  {
    TextLawful();
    NfsStatusLawful();
    ResultsLawful();
    PairLawful(NfsStatusCodec(), Array(OperationResultCodec()));
    var last2 := Pair(NfsStatusCodec(), Array(OperationResultCodec()));
    PairLawful(Text(), last2);
    var last3 := Pair(Text(), last2);
    ViaLawful(last3, CompoundResponseView, CompoundResponseBuild);
  }

  //---------------------------------------------------------------------------
  // Which requests and responses can be encoded
  //---------------------------------------------------------------------------

  predicate FitsAttributes(a: NfsFileAttributes) {
    Fits(a.owner) && Fits(a.group)
  }

  predicate FitsOperation(op: NfsOperation) {
    match op
    case Create(a) => Fits(a.objectName) && FitsAttributes(a.attributes)
    case GetAttr(a) => Fits(a.attrRequest)
    case Lookup(a) => Fits(a.objectName)
    case Open(a) => Fits(a.owner) && Fits(a.openClaim.path)
    case Write(a) => Fits(a.data)
    case _ => true
  }

  // Every string, byte list and array of a request has a length that fits its count.
  predicate FitsRequest(r: CompoundRequest) {
    Fits(r.tag) && Fits(r.operations) && forall i :: 0 <= i < |r.operations| ==> FitsOperation(r.operations[i])
  }

  predicate FitsData(d: OperationData) {
    match d
    case GetAttrData(a) => FitsAttributes(a)
    case GetFhData(h) => Fits(h.data)
    case ReadData(bytes) => Fits(bytes)
    case _ => true
  }

  predicate FitsResult(r: OperationResult) {
    r.result.None? || FitsData(r.result.value)
  }

  // The same of a response.
  predicate FitsResponse(r: CompoundResponse) {
    Fits(r.tag) && Fits(r.results) && forall i :: 0 <= i < |r.results| ==> FitsResult(r.results[i])
  }

  lemma ValidStateId(id: StateId)
    ensures StateIdCodec().valid(id)
  {
    assert StateIdView(id) == Some(id);
    forall b: byte ensures Octet().valid(b) {
      assert OctetView(b) == Some(b);
    }
  }

  lemma ValidStatus(s: NfsStatus)
    ensures NfsStatusCodec().valid(s)
  {
    assert NfsStatusView(s).Some?;
  }

  lemma ValidTime(t: NfsTime)
    ensures NfsTimeCodec().valid(t)
  {
    assert NfsTimeView(t).Some? && U64View(t.seconds).Some?;
  }

  lemma ValidAttributes(a: NfsFileAttributes)
    ensures NfsFileAttributesCodec().valid(a) <==> FitsAttributes(a)
  {
    assert NfsFileAttributesView(a).Some? && U64View(a.size).Some? && U64View(a.spaceUsed).Some?;
    ValidTime(a.timeAccess);
    ValidTime(a.timeModify);
    ValidText(a.owner);
    ValidText(a.group);
  }

  lemma ValidCreate(a: CreateOperation)
    ensures CreateOperationCodec().valid(a) <==> Fits(a.objectName) && FitsAttributes(a.attributes)
  {
    assert CreateOperationView(a).Some?;
    ValidText(a.objectName);
    ValidAttributes(a.attributes);
  }

  lemma ValidGetAttr(a: GetAttrOperation)
    ensures GetAttrOperationCodec().valid(a) <==> Fits(a.attrRequest)
  {
    assert GetAttrOperationView(a).Some?;
    ValidArray(U32(), a.attrRequest);
  }

  lemma ValidClaim(c: OpenClaim)
    ensures OpenClaimCodec().valid(c) <==> Fits(c.path)
  {
    ValidText(c.path);
    match c
    case Null(_) => ValidArm(OpenClaimTag, OpenClaimArm, Text(), NullView, NullBuild, c);
    case Previous(_) => ValidArm(OpenClaimTag, OpenClaimArm, Text(), PreviousView, PreviousBuild, c);
    case Delegate(_) => ValidArm(OpenClaimTag, OpenClaimArm, Text(), DelegateView, DelegateBuild, c);
  }

  lemma ValidOpen(a: OpenOperation)
    ensures OpenOperationCodec().valid(a) <==> Fits(a.owner) && Fits(a.openClaim.path)
  {
    assert OpenOperationView(a).Some?;
    ValidOctets(a.owner);
    ValidClaim(a.openClaim);
  }

  lemma ValidRead(a: ReadOperation)
    ensures ReadOperationCodec().valid(a)
  {
    assert ReadOperationView(a).Some? && U64View(a.offset).Some?;
    ValidStateId(a.stateid);
  }

  lemma ValidWrite(a: WriteOperation)
    ensures WriteOperationCodec().valid(a) <==> Fits(a.data)
  {
    var last2 := Pair(U32(), Octets());
    var last3 := Pair(U64(), last2);
    var fields := WriteOperationView(a).value;
    assert U64View(a.offset).Some?;
    ValidStateId(a.stateid);
    ValidOctets(a.data);
    assert last2.valid(fields.1.1) <==> Fits(a.data);
    assert last3.valid(fields.1) <==> Fits(a.data);
  }

  lemma ValidAccessArm(op: NfsOperation)
    requires op.Access?
    ensures NfsOperationCodec().valid(op) <==> FitsOperation(op)
  {
    AccessArmIs();
    ValidArm(NfsOperationTag, NfsOperationArm, AccessOperationCodec(), AccessView, AccessBuild, op);
    assert AccessOperationView(op.access).Some?;
  }

  lemma ValidCloseArm(op: NfsOperation)
    requires op.Close?
    ensures NfsOperationCodec().valid(op) <==> FitsOperation(op)
  {
    CloseArmIs();
    ValidArm(NfsOperationTag, NfsOperationArm, CloseOperationCodec(), CloseView, CloseBuild, op);
    assert CloseOperationView(op.close).Some?;
    ValidStateId(op.close.openStateid);
  }

  lemma ValidCommitArm(op: NfsOperation)
    requires op.Commit?
    ensures NfsOperationCodec().valid(op) <==> FitsOperation(op)
  {
    CommitArmIs();
    ValidArm(NfsOperationTag, NfsOperationArm, CommitOperationCodec(), CommitView, CommitBuild, op);
    assert CommitOperationView(op.commit).Some? && U64View(op.commit.offset).Some?;
  }

  lemma ValidCreateArm(op: NfsOperation)
    requires op.Create?
    ensures NfsOperationCodec().valid(op) <==> FitsOperation(op)
  {
    CreateArmIs();
    ValidArm(NfsOperationTag, NfsOperationArm, CreateOperationCodec(), CreateView, CreateBuild, op);
    ValidCreate(op.create);
  }

  lemma ValidGetAttrArm(op: NfsOperation)
    requires op.GetAttr?
    ensures NfsOperationCodec().valid(op) <==> FitsOperation(op)
  {
    GetAttrArmIs();
    ValidArm(NfsOperationTag, NfsOperationArm, GetAttrOperationCodec(), GetAttrView, GetAttrBuild, op);
    ValidGetAttr(op.getattr);
  }

  lemma ValidGetFhArm(op: NfsOperation)
    requires op.GetFh?
    ensures NfsOperationCodec().valid(op) <==> FitsOperation(op)
  {
    GetFhArmIs();
    ValidArm(NfsOperationTag, NfsOperationArm, Void(), GetFhView, GetFhBuild, op);
  }

  lemma ValidLookupArm(op: NfsOperation)
    requires op.Lookup?
    ensures NfsOperationCodec().valid(op) <==> FitsOperation(op)
  {
    LookupArmIs();
    ValidArm(NfsOperationTag, NfsOperationArm, LookupOperationCodec(), LookupView, LookupBuild, op);
    assert LookupOperationView(op.lookup).Some?;
    ValidText(op.lookup.objectName);
  }

  lemma ValidLookuppArm(op: NfsOperation)
    requires op.Lookupp?
    ensures NfsOperationCodec().valid(op) <==> FitsOperation(op)
  {
    LookuppArmIs();
    ValidArm(NfsOperationTag, NfsOperationArm, Void(), LookuppView, LookuppBuild, op);
  }

  lemma ValidOpenArm(op: NfsOperation)
    requires op.Open?
    ensures NfsOperationCodec().valid(op) <==> FitsOperation(op)
  {
    OpenArmIs();
    ValidArm(NfsOperationTag, NfsOperationArm, OpenOperationCodec(), OpenView, OpenBuild, op);
    ValidOpen(op.open);
  }

  lemma ValidOpenConfirmArm(op: NfsOperation)
    requires op.OpenConfirm?
    ensures NfsOperationCodec().valid(op) <==> FitsOperation(op)
  {
    OpenConfirmArmIs();
    ValidArm(NfsOperationTag, NfsOperationArm, OpenConfirmOperationCodec(), OpenConfirmView, OpenConfirmBuild, op);
    assert OpenConfirmOperationView(op.confirm).Some?;
    ValidStateId(op.confirm.openStateid);
  }

  lemma ValidReadArm(op: NfsOperation)
    requires op.Read?
    ensures NfsOperationCodec().valid(op) <==> FitsOperation(op)
  {
    ReadArmIs();
    ValidArm(NfsOperationTag, NfsOperationArm, ReadOperationCodec(), ReadView, ReadBuild, op);
    ValidRead(op.read);
  }

  lemma ValidWriteArm(op: NfsOperation)
    requires op.Write?
    ensures NfsOperationCodec().valid(op) <==> FitsOperation(op)
  {
    WriteArmIs();
    ValidArm(NfsOperationTag, NfsOperationArm, WriteOperationCodec(), WriteView, WriteBuild, op);
    ValidWrite(op.write);
  }

  lemma ValidFirstOperations(op: NfsOperation)
    requires op.Access? || op.Close? || op.Commit? || op.Create? || op.GetAttr? || op.GetFh?
    ensures NfsOperationCodec().valid(op) <==> FitsOperation(op)
  {
    match op
    case Access(_) => ValidAccessArm(op);
    case Close(_) => ValidCloseArm(op);
    case Commit(_) => ValidCommitArm(op);
    case Create(_) => ValidCreateArm(op);
    case GetAttr(_) => ValidGetAttrArm(op);
    case GetFh(_) => ValidGetFhArm(op);
  }

  lemma ValidLastOperations(op: NfsOperation)
    requires op.Lookup? || op.Lookupp? || op.Open? || op.OpenConfirm? || op.Read? || op.Write?
    ensures NfsOperationCodec().valid(op) <==> FitsOperation(op)
  {
    match op
    case Lookup(_) => ValidLookupArm(op);
    case Lookupp(_) => ValidLookuppArm(op);
    case Open(_) => ValidOpenArm(op);
    case OpenConfirm(_) => ValidOpenConfirmArm(op);
    case Read(_) => ValidReadArm(op);
    case Write(_) => ValidWriteArm(op);
  }

  lemma ValidOperation(op: NfsOperation)
    ensures NfsOperationCodec().valid(op) <==> FitsOperation(op)
  {
    if op.Access? || op.Close? || op.Commit? || op.Create? || op.GetAttr? || op.GetFh? {
      ValidFirstOperations(op);
    } else {
      ValidLastOperations(op);
    }
  }

  lemma ValidData(d: OperationData)
    ensures OperationDataCodec().valid(d) <==> FitsData(d)
  {
    match d
    case AccessData(_) =>
      ValidArm(OperationDataTag, OperationDataArm, U32(), AccessDataView, AccessDataBuild, d);
    case GetAttrData(a) =>
      ValidArm(OperationDataTag, OperationDataArm, NfsFileAttributesCodec(), GetAttrDataView, GetAttrDataBuild, d);
      ValidAttributes(a);
    case GetFhData(h) =>
      ValidArm(OperationDataTag, OperationDataArm, NfsFileHandleCodec(), GetFhDataView, GetFhDataBuild, d);
      assert NfsFileHandleView(h).Some?;
      ValidOctets(h.data);
    case ReadData(bytes) =>
      ValidArm(OperationDataTag, OperationDataArm, Octets(), ReadDataView, ReadDataBuild, d);
      ValidOctets(bytes);
    case WriteData(_) =>
      ValidArm(OperationDataTag, OperationDataArm, U32(), WriteDataView, WriteDataBuild, d);
    case OpenData(id) =>
      ValidArm(OperationDataTag, OperationDataArm, StateIdCodec(), OpenDataView, OpenDataBuild, d);
      ValidStateId(id);
  }

  lemma ValidResult(r: OperationResult)
    ensures OperationResultCodec().valid(r) <==> FitsResult(r)
  {
    assert OperationResultView(r).Some?;
    ValidStatus(r.status);
    ValidOptional(OperationDataCodec(), r.result);
    if r.result.Some? {
      ValidData(r.result.value);
    }
  }

  lemma ValidOperations(ops: seq<NfsOperation>)
    ensures Array(NfsOperationCodec()).valid(ops) <==>
      Fits(ops) && forall i :: 0 <= i < |ops| ==> FitsOperation(ops[i])
  {
    ValidArray(NfsOperationCodec(), ops);
    forall i | 0 <= i < |ops| ensures NfsOperationCodec().valid(ops[i]) <==> FitsOperation(ops[i]) {
      ValidOperation(ops[i]);
    }
  }

  lemma ValidResults(results: seq<OperationResult>)
    ensures Array(OperationResultCodec()).valid(results) <==>
      Fits(results) && forall i :: 0 <= i < |results| ==> FitsResult(results[i])
  {
    ValidArray(OperationResultCodec(), results);
    forall i | 0 <= i < |results| ensures OperationResultCodec().valid(results[i]) <==> FitsResult(results[i]) {
      ValidResult(results[i]);
    }
  }

  // A request is encodable exactly when every length in it is below 2^32.
  lemma ValidRequest(r: CompoundRequest)
    ensures CompoundRequestCodec().valid(r) <==> FitsRequest(r)
  {
    assert CompoundRequestView(r).Some?;
    ValidText(r.tag);
    ValidOperations(r.operations);
  }

  // A response is encodable exactly when every length in it is below 2^32.
  lemma ValidResponse(r: CompoundResponse)
    ensures CompoundResponseCodec().valid(r) <==> FitsResponse(r)
  {
    var last2 := Pair(NfsStatusCodec(), Array(OperationResultCodec()));
    var fields := CompoundResponseView(r).value;
    ValidStatus(r.status);
    ValidText(r.tag);
    ValidResults(r.results);
    assert last2.valid(fields.1) <==> Array(OperationResultCodec()).valid(r.results);
  }

  //---------------------------------------------------------------------------
  // Whole requests and responses
  //---------------------------------------------------------------------------

  // Any request with lengths below 2^32, followed by any bytes, decodes to itself and those bytes,
  // and nothing else decodes.
  lemma RequestExact(b: seq<byte>, request: CompoundRequest, rest: seq<byte>)
    ensures CompoundRequestCodec().dec(b) == Some((request, rest)) <==>
      FitsRequest(request) && b == CompoundRequestCodec().enc(request) + rest
  {
    CompoundRequestLawful();
    ValidRequest(request);
    DecodesExactly(CompoundRequestCodec(), b, request, rest);
  }

  // The same of responses.
  lemma ResponseExact(b: seq<byte>, response: CompoundResponse, rest: seq<byte>)
    ensures CompoundResponseCodec().dec(b) == Some((response, rest)) <==>
      FitsResponse(response) && b == CompoundResponseCodec().enc(response) + rest
  {
    CompoundResponseLawful();
    ValidResponse(response);
    DecodesExactly(CompoundResponseCodec(), b, response, rest);
  }
}
