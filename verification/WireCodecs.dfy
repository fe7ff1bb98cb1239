/** The codecs a connection uses, instantiated with the concrete ones. */
module WireCodecs {
  import opened Wrappers
  import opened Words
  import opened Xdr
  import opened Rpc
  import opened Framing
  import opened Protocol
  import opened ServerSpec
  import opened CompoundLaws
  import RpcCodec
  import ProtocolCodec
  import opened Connection

  function Concrete(): Wires {
    Wires(RpcCodec.RpcMsgCodec(), ProtocolCodec.CompoundRequestCodec(), ProtocolCodec.CompoundResponseCodec())
  }

  // So everything proved of lawful codecs holds of these.
  lemma ConcreteLawful()
    ensures Lawful(Concrete().rpc) && Lawful(Concrete().request) && Lawful(Concrete().response)
  {
    RpcCodec.RpcMsgLawful();
    ProtocolCodec.CompoundRequestLawful();
    ProtocolCodec.CompoundResponseLawful();
  }

  // A call that can be encoded has a frame that reads back exactly when its byte lists together are
  // shorter than 2^30 - 11 bytes. Otherwise the reader finds an undecodable frame.
  lemma CallFrameExact(xid: u32, call: CallBody, rest: seq<byte>)
    requires Fits(call.cred.body) && Fits(call.verf.body) && Fits(call.data)
    ensures var msg := RpcMsg(xid, Call(call));
      && Encode(Concrete().rpc, msg).Ok?
      && var read := ReadFrame(Concrete().rpc, FrameOf(Concrete().rpc, msg) + rest);
      if |call.cred.body| + |call.verf.body| + |call.data| < 0x4000_0000 - 11
      then read == Complete(Result.Ok(msg), rest)
      else read.Complete? && read.msg == Err
  {
    var msg := RpcMsg(xid, Call(call));
    ConcreteLawful();
    RpcCodec.ValidMsg(msg);
    RpcCodec.CallSize(xid, call);
    WriteReadExact(Concrete().rpc, msg, rest);
  }

  //---------------------------------------------------------------------------
  // A call to a fresh server
  //---------------------------------------------------------------------------

  // What an operation answers on a server without handles fits its counts.
  lemma OutcomeFits(s: Server, op: NfsOperation, fh: Option<NfsFileHandle>, e: Choice)
    requires s.handles == map[]
    ensures var o := Apply(s, op, fh, e).outcome;
      o.Answer? ==> ProtocolCodec.FitsResult(o.result)
    ensures Apply(s, op, fh, e).server.handles == map[]
  {
    if op.Read? && op.read.stateid in s.stateids && s.stateids[op.read.stateid].file.Some? && e.transfer.Moved? {
      var content := Contents(s.disk, s.stateids[op.read.stateid].file.value.id);
      assert |ReadAt(content, op.read.offset, Min(e.transfer.n, op.read.count))| <= op.read.count;
    }
  }

  ghost predicate ResultsFit(results: seq<OperationResult>) {
    forall i :: 0 <= i < |results| ==> ProtocolCodec.FitsResult(results[i])
  }

  lemma {:induction false} ExecutionFits(s: Server, c: Compound, env: nat -> Choice, tick: nat)
    requires s.handles == map[] && ResultsFit(c.results)
    ensures var r := Execute(s, c, env, tick).compound;
      ResultsFit(r.results) && |r.results| <= |c.results| + |c.ops|
    decreases |c.ops|, !c.aborted
  {
    if !Finished(c) {
      var step := Apply(s, c.ops[0], c.fh, env(tick));
      OutcomeFits(s, c.ops[0], c.fh, env(tick));
      ExecuteStep(s, c, env, tick, step.server, step.outcome);
      ExecutionFits(step.server, Advance(c, step.outcome), env, tick + 1);
    }
  }

  lemma ResponseEncodes(s: Server, request: CompoundRequest, env: nat -> Choice, tick: nat)
    requires s.handles == map[] && ProtocolCodec.FitsRequest(request)
    ensures var c := Execute(s, Begin(request.operations), env, tick).compound;
      !c.aborted ==> Encode(Concrete().response, Respond(c, request.tag).value).Ok?
  {
    var c := Execute(s, Begin(request.operations), env, tick).compound;
    ExecutionFits(s, Begin(request.operations), env, tick);
    if !c.aborted {
      ResponseIsValid(CompoundResponse(request.tag, c.status, c.results));
    }
  }

  lemma ResponseIsValid(r: CompoundResponse)
    requires ProtocolCodec.FitsResponse(r)
    ensures Encode(Concrete().response, r).Ok?
  {
    ProtocolCodec.ValidResponse(r);
  }

  // With the concrete codecs, whatever a fresh server has run before, a call with any request whose
  // lengths are below 2^32 is run, operation by operation, and its reply has the call's xid and
  // carries the response. There is no reply exactly when a handler's error aborts the compound:
  // every response can be encoded.
  lemma FreshCallRoundTrip(
    root: Path, disk: Disk, events: seq<Event>, env: nat -> Choice, tick: nat, msg: RpcMsg, request: CompoundRequest)
    requires msg.body.Call? && msg.body.call.prog == 100003 && msg.body.call.progVers == 4
    requires ProtocolCodec.FitsRequest(request)
    requires msg.body.call.data == ProtocolCodec.CompoundRequestCodec().enc(request)
    ensures var s := Run(Fresh(root, disk), events);
      var (s', reply) := AnswerTo(Concrete(), env, Session(s, tick), msg);
      exists r ::
        && Performs(s, request, env, tick, s'.server, s'.tick, r)
        && (reply.None? <==> r.Err?)
        && (reply.Some? ==>
              && reply.value.xid == msg.xid
              && reply.value.body.Reply? && reply.value.body.reply.replyStat == 0
              && reply.value.body.reply.data.Accepted?
              && var accepted := reply.value.body.reply.data.accepted;
              && accepted.verf.flavor == 0 && accepted.verf.body == [] && accepted.stat == 0
              && Decode(ProtocolCodec.CompoundResponseCodec(), accepted.data) == r)
  {
    var s := Run(Fresh(root, disk), events);
    var w := Concrete();
    ConcreteLawful();
    ProtocolCodec.ValidRequest(request);
    HandlesStayEmpty(Fresh(root, disk), events);
    CallRoundTrip(w, env, Session(s, tick), msg, request);
    var (s', reply) := AnswerTo(w, env, Session(s, tick), msg);
    forall r | Performs(s, request, env, tick, s'.server, s'.tick, r) && r.Ok?
      ensures Encode(w.response, r.value).Ok?
    {
      PerformedEncodes(s, request, env, tick, s'.server, s'.tick, r);
    }
  }

  lemma PerformedEncodes(
    s: Server, request: CompoundRequest, env: nat -> Choice, tick: nat,
    s': Server, tick': nat, r: Result<CompoundResponse>)
    requires s.handles == map[] && ProtocolCodec.FitsRequest(request)
    requires Performs(s, request, env, tick, s', tick', r) && r.Ok?
    ensures Encode(Concrete().response, r.value).Ok?
  {
    PerformsExactly(s, request, env, tick, s', tick', r);
    ResponseEncodes(s, request, env, tick);
  }
}
