/** The codec for the remote-procedure messages, and the source's encode and decode. */
module RpcCodec {
  import opened Wrappers
  import opened Words
  import opened Xdr
  import opened Rpc

  function OpaqueAuthView(v: OpaqueAuth): Option<(u32, seq<byte>)> { Some((v.flavor, v.body)) }
  function OpaqueAuthBuild(t: (u32, seq<byte>)): OpaqueAuth { OpaqueAuth(t.0, t.1) }
  function OpaqueAuthCodec(): Codec<OpaqueAuth> { Via(Pair(U32(), Octets()), OpaqueAuthView, OpaqueAuthBuild) }

  lemma OpaqueAuthLawful()
    ensures Lawful(OpaqueAuthCodec())
  {
    U32Lawful();
    OctetsLawful();
    PairLawful(U32(), Octets());
    ViaLawful(Pair(U32(), Octets()), OpaqueAuthView, OpaqueAuthBuild);
  }

  type CallBodyFields = (u32, (u32, (u32, (u32, (OpaqueAuth, (OpaqueAuth, seq<byte>))))))

  function CallBodyView(v: CallBody): Option<CallBodyFields> {
    Some((v.rpcVers, (v.prog, (v.progVers, (v.proc, (v.cred, (v.verf, v.data)))))))
  }
  function CallBodyBuild(t: CallBodyFields): CallBody {
    CallBody(t.0, t.1.0, t.1.1.0, t.1.1.1.0, t.1.1.1.1.0, t.1.1.1.1.1.0, t.1.1.1.1.1.1)
  }
  function CallBodyCodec(): Codec<CallBody> {
    Via(
      Pair(U32(), Pair(U32(), Pair(U32(), Pair(U32(), Pair(OpaqueAuthCodec(), Pair(OpaqueAuthCodec(),
           Octets())))))),
      CallBodyView, CallBodyBuild)
  }

  lemma CallBodyLawful()
    ensures Lawful(CallBodyCodec())
  {
    U32Lawful();
    OpaqueAuthLawful();
    OctetsLawful();
    PairLawful(OpaqueAuthCodec(), Octets());
    var last2 := Pair(OpaqueAuthCodec(), Octets());
    PairLawful(OpaqueAuthCodec(), last2);
    var last3 := Pair(OpaqueAuthCodec(), last2);
    PairLawful(U32(), last3);
    var last4 := Pair(U32(), last3);
    PairLawful(U32(), last4);
    var last5 := Pair(U32(), last4);
    PairLawful(U32(), last5);
    var last6 := Pair(U32(), last5);
    PairLawful(U32(), last6);
    var last7 := Pair(U32(), last6);
    ViaLawful(last7, CallBodyView, CallBodyBuild);
  }

  type AcceptedReplyFields = (OpaqueAuth, (u32, seq<byte>))

  function AcceptedReplyView(v: AcceptedReply): Option<AcceptedReplyFields> { Some((v.verf, (v.stat, v.data))) }
  function AcceptedReplyBuild(t: AcceptedReplyFields): AcceptedReply { AcceptedReply(t.0, t.1.0, t.1.1) }
  function AcceptedReplyCodec(): Codec<AcceptedReply> {
    Via(Pair(OpaqueAuthCodec(), Pair(U32(), Octets())), AcceptedReplyView, AcceptedReplyBuild)
  }

  lemma AcceptedReplyLawful()
    ensures Lawful(AcceptedReplyCodec())
  {
    OpaqueAuthLawful();
    U32Lawful();
    OctetsLawful();
    PairLawful(U32(), Octets());
    PairLawful(OpaqueAuthCodec(), Pair(U32(), Octets()));
    ViaLawful(Pair(OpaqueAuthCodec(), Pair(U32(), Octets())), AcceptedReplyView, AcceptedReplyBuild);
  }

  type RejectedReplyFields = (u32, seq<byte>)

  function RejectedReplyView(v: RejectedReply): Option<RejectedReplyFields> { Some((v.stat, v.data)) }
  function RejectedReplyBuild(t: RejectedReplyFields): RejectedReply { RejectedReply(t.0, t.1) }
  function RejectedReplyCodec(): Codec<RejectedReply> {
    Via(Pair(U32(), Octets()), RejectedReplyView, RejectedReplyBuild)
  }

  lemma RejectedReplyLawful()
    ensures Lawful(RejectedReplyCodec())
  {
    U32Lawful();
    OctetsLawful();
    PairLawful(U32(), Octets());
    ViaLawful(Pair(U32(), Octets()), RejectedReplyView, RejectedReplyBuild);
  }

  function ReplyDataTag(v: ReplyData): u32 {
    match v
    case Accepted(_) => 0
    case Rejected(_) => 1
  }

  function AcceptedView(v: ReplyData): Option<AcceptedReply> { if v.Accepted? then Some(v.accepted) else None }
  function AcceptedBuild(a: AcceptedReply): ReplyData { ReplyData.Accepted(a) }
  function RejectedView(v: ReplyData): Option<RejectedReply> { if v.Rejected? then Some(v.rejected) else None }
  function RejectedBuild(a: RejectedReply): ReplyData { ReplyData.Rejected(a) }

  function ReplyDataArm(t: u32): Option<Codec<ReplyData>> {
    if t == 0 then Some(Via(AcceptedReplyCodec(), AcceptedView, AcceptedBuild))
    else if t == 1 then Some(Via(RejectedReplyCodec(), RejectedView, RejectedBuild))
    else None
  }

  function ReplyDataCodec(): Codec<ReplyData> { Union(ReplyDataTag, ReplyDataArm) }

  lemma ReplyDataArmsLawful(t: u32)
    requires t < 2
    ensures GoodArm(ReplyDataTag, t, ReplyDataArm(t).value)
  {
    if t == 0 {
      AcceptedReplyLawful();
      ArmLawful(ReplyDataTag, t, AcceptedReplyCodec(), AcceptedView, AcceptedBuild);
    } else {
      RejectedReplyLawful();
      ArmLawful(ReplyDataTag, t, RejectedReplyCodec(), RejectedView, RejectedBuild);
    }
  }

  lemma ReplyDataLawful()
    ensures Lawful(ReplyDataCodec())
  {
    forall t: u32 | ReplyDataArm(t).Some? ensures GoodArm(ReplyDataTag, t, ReplyDataArm(t).value) {
      ReplyDataArmsLawful(t);
    }
    UnionLawful(ReplyDataTag, ReplyDataArm);
  }

  function ReplyBodyView(v: ReplyBody): Option<(u32, ReplyData)> { Some((v.replyStat, v.data)) }
  function ReplyBodyBuild(t: (u32, ReplyData)): ReplyBody { ReplyBody(t.0, t.1) }
  function ReplyBodyCodec(): Codec<ReplyBody> { Via(Pair(U32(), ReplyDataCodec()), ReplyBodyView, ReplyBodyBuild) }

  lemma ReplyBodyLawful()
    ensures Lawful(ReplyBodyCodec())
  {
    U32Lawful();
    ReplyDataLawful();
    PairLawful(U32(), ReplyDataCodec());
    ViaLawful(Pair(U32(), ReplyDataCodec()), ReplyBodyView, ReplyBodyBuild);
  }

  function RpcMsgBodyTag(v: RpcMsgBody): u32 {
    match v
    case Call(_) => 0
    case Reply(_) => 1
  }

  function CallView(v: RpcMsgBody): Option<CallBody> { if v.Call? then Some(v.call) else None }
  function CallBuild(a: CallBody): RpcMsgBody { RpcMsgBody.Call(a) }
  function ReplyView(v: RpcMsgBody): Option<ReplyBody> { if v.Reply? then Some(v.reply) else None }
  function ReplyBuild(a: ReplyBody): RpcMsgBody { RpcMsgBody.Reply(a) }

  function RpcMsgBodyArm(t: u32): Option<Codec<RpcMsgBody>> {
    if t == 0 then Some(Via(CallBodyCodec(), CallView, CallBuild))
    else if t == 1 then Some(Via(ReplyBodyCodec(), ReplyView, ReplyBuild))
    else None
  }

  function RpcMsgBodyCodec(): Codec<RpcMsgBody> { Union(RpcMsgBodyTag, RpcMsgBodyArm) }

  lemma RpcMsgBodyArmsLawful(t: u32)
    requires t < 2
    ensures GoodArm(RpcMsgBodyTag, t, RpcMsgBodyArm(t).value)
  {
    if t == 0 {
      CallBodyLawful();
      ArmLawful(RpcMsgBodyTag, t, CallBodyCodec(), CallView, CallBuild);
    } else {
      ReplyBodyLawful();
      ArmLawful(RpcMsgBodyTag, t, ReplyBodyCodec(), ReplyView, ReplyBuild);
    }
  }

  lemma RpcMsgBodyLawful()
    ensures Lawful(RpcMsgBodyCodec())
  {
    forall t: u32 | RpcMsgBodyArm(t).Some? ensures GoodArm(RpcMsgBodyTag, t, RpcMsgBodyArm(t).value) {
      RpcMsgBodyArmsLawful(t);
    }
    UnionLawful(RpcMsgBodyTag, RpcMsgBodyArm);
  }

  function RpcMsgView(v: RpcMsg): Option<(u32, RpcMsgBody)> { Some((v.xid, v.body)) }
  function RpcMsgBuild(t: (u32, RpcMsgBody)): RpcMsg { RpcMsg(t.0, t.1) }
  function RpcMsgCodec(): Codec<RpcMsg> { Via(Pair(U32(), RpcMsgBodyCodec()), RpcMsgView, RpcMsgBuild) }

  lemma RpcMsgLawful()
    ensures Lawful(RpcMsgCodec())
  {
    U32Lawful();
    RpcMsgBodyLawful();
    PairLawful(U32(), RpcMsgBodyCodec());
    ViaLawful(Pair(U32(), RpcMsgBodyCodec()), RpcMsgView, RpcMsgBuild);
  }

  //---------------------------------------------------------------------------
  // Layout
  //---------------------------------------------------------------------------

  // The bytes of a call, field by field in wire order.
  lemma CallLayout(xid: u32, c: CallBody)
    ensures RpcMsgCodec().enc(RpcMsg(xid, Call(c))) == Be32(xid) + (Be32(0) + CallBodyCodec().enc(c))
    ensures CallBodyCodec().enc(c) ==
      Be32(c.rpcVers) + (Be32(c.prog) + (Be32(c.progVers) + (Be32(c.proc)
      + (OpaqueAuthCodec().enc(c.cred) + (OpaqueAuthCodec().enc(c.verf) + Octets().enc(c.data))))))
  {
    assert RpcMsgView(RpcMsg(xid, Call(c))).Some? && CallBodyView(c).Some?;
    ArmLayout(RpcMsgBodyTag, RpcMsgBodyArm, CallBodyCodec(), CallView, CallBuild, Call(c));
  }

  // The bytes of an accepted reply, field by field in wire order.
  lemma AcceptedLayout(xid: u32, stat: u32, a: AcceptedReply)
    ensures var r := ReplyBody(stat, Accepted(a));
      RpcMsgCodec().enc(RpcMsg(xid, Reply(r)))
        == Be32(xid) + (Be32(1) + (Be32(stat) + (Be32(0) + AcceptedReplyCodec().enc(a))))
    ensures AcceptedReplyCodec().enc(a) == OpaqueAuthCodec().enc(a.verf) + (Be32(a.stat) + Octets().enc(a.data))
  {
    var r := ReplyBody(stat, Accepted(a));
    assert RpcMsgView(RpcMsg(xid, Reply(r))).Some? && ReplyBodyView(r).Some? && AcceptedReplyView(a).Some?;
    ArmLayout(RpcMsgBodyTag, RpcMsgBodyArm, ReplyBodyCodec(), ReplyView, ReplyBuild, Reply(r));
    ArmLayout(ReplyDataTag, ReplyDataArm, AcceptedReplyCodec(), AcceptedView, AcceptedBuild, r.data);
  }

  // The bytes of a credential or verifier.
  lemma AuthLayout(a: OpaqueAuth)
    ensures OpaqueAuthCodec().enc(a) == Be32(a.flavor) + Octets().enc(a.body)
  {
    assert OpaqueAuthView(a).Some?;
  }

  //---------------------------------------------------------------------------
  // Which messages can be encoded
  //---------------------------------------------------------------------------

  // Every byte list of a message has a length that fits its count.
  predicate FitsMsg(msg: RpcMsg) {
    match msg.body
    case Call(c) => Fits(c.cred.body) && Fits(c.verf.body) && Fits(c.data)
    case Reply(r) =>
      match r.data
      case Accepted(a) => Fits(a.verf.body) && Fits(a.data)
      case Rejected(a) => Fits(a.data)
  }

  lemma ValidAuth(a: OpaqueAuth)
    ensures OpaqueAuthCodec().valid(a) <==> Fits(a.body)
  {
    assert OpaqueAuthView(a).Some?;
    ValidOctets(a.body);
  }

  lemma ValidCallBody(c: CallBody)
    ensures CallBodyCodec().valid(c) <==> Fits(c.cred.body) && Fits(c.verf.body) && Fits(c.data)
  {
    assert CallBodyView(c).Some?;
    ValidAuth(c.cred);
    ValidAuth(c.verf);
    ValidOctets(c.data);
  }

  lemma ValidReplyData(r: ReplyData)
    ensures ReplyDataCodec().valid(r) <==>
      if r.Accepted? then Fits(r.accepted.verf.body) && Fits(r.accepted.data) else Fits(r.rejected.data)
  {
    match r
    case Accepted(a) =>
      ValidArm(ReplyDataTag, ReplyDataArm, AcceptedReplyCodec(), AcceptedView, AcceptedBuild, r);
      assert AcceptedReplyView(a).Some?;
      ValidAuth(a.verf);
      ValidOctets(a.data);
    case Rejected(a) =>
      ValidArm(ReplyDataTag, ReplyDataArm, RejectedReplyCodec(), RejectedView, RejectedBuild, r);
      assert RejectedReplyView(a).Some?;
      ValidOctets(a.data);
  }

  // A message, call or reply, is encodable exactly when its byte lists have lengths below 2^32.
  lemma ValidMsg(msg: RpcMsg)
    ensures RpcMsgCodec().valid(msg) <==> FitsMsg(msg)
  {
    assert RpcMsgView(msg).Some?;
    match msg.body
    case Call(c) =>
      ValidArm(RpcMsgBodyTag, RpcMsgBodyArm, CallBodyCodec(), CallView, CallBuild, msg.body);
      ValidCallBody(c);
    case Reply(r) =>
      ValidArm(RpcMsgBodyTag, RpcMsgBodyArm, ReplyBodyCodec(), ReplyView, ReplyBuild, msg.body);
      assert ReplyBodyView(r).Some?;
      ValidReplyData(r.data);
  }

  // Any message with lengths below 2^32, followed by any bytes, decodes to itself and those bytes,
  // and nothing else decodes.
  lemma MsgExact(b: seq<byte>, msg: RpcMsg, rest: seq<byte>)
    ensures RpcMsgCodec().dec(b) == Some((msg, rest)) <==> FitsMsg(msg) && b == RpcMsgCodec().enc(msg) + rest
  {
    RpcMsgLawful();
    ValidMsg(msg);
    DecodesExactly(RpcMsgCodec(), b, msg, rest);
  }

  lemma AuthSize(a: OpaqueAuth)
    requires Fits(a.body)
    ensures |OpaqueAuthCodec().enc(a)| == 8 + 4 * |a.body|
  {
    AuthLayout(a);
    OctetsSize(a.body);
  }

  // Byte lists travel widened to four bytes for each.
  lemma CallSize(xid: u32, c: CallBody)
    requires Fits(c.cred.body) && Fits(c.verf.body) && Fits(c.data)
    ensures |RpcMsgCodec().enc(RpcMsg(xid, Call(c)))| == 44 + 4 * (|c.cred.body| + |c.verf.body| + |c.data|)
  {
    CallLayout(xid, c);
    AuthSize(c.cred);
    AuthSize(c.verf);
    OctetsSize(c.data);
  }
}
