/**
 One client connection: bytes arrive in arbitrary chunks, every decoded message
 is answered in order, and what is sent is exactly the frames of the replies,
 cut short only by a failure of the socket.
 */
module Connection {
  import opened Wrappers
  import opened Words
  import opened Xdr
  import opened Protocol
  import opened Rpc
  import opened Framing
  import opened ServerSpec
  import opened CompoundLaws
  import opened NfsServerModel

  // The codecs in use. RpcCodec and ProtocolCodec have lawful ones.
  datatype Wires = Wires(rpc: Wire, request: Codec<CompoundRequest>, response: Codec<CompoundResponse>)

  // The server a connection talks to, and how many choices it has drawn.
  datatype Session = Session(server: Server, tick: nat)

  //---------------------------------------------------------------------------
  // Answering one message
  //---------------------------------------------------------------------------

  predicate Supported(msg: RpcMsg) {
    msg.body.Call? && msg.body.call.prog == NFS_PROGRAM && msg.body.call.progVers == NFS_VERSION
  }

  // The data of a success reply; Err where the source's `?` ends the connection.
  function RunCall(w: Wires, env: nat -> Choice, s: Session, data: seq<byte>): (Session, Result<seq<byte>>) {
    match Decode(w.request, data)
    case Err => (s, Err)
    case Ok(request) =>
      var ran := Execute(s.server, Begin(request.operations), env, s.tick);
      (Session(ran.server, ran.tick),
       match Respond(ran.compound, request.tag)
       case Err => Err
       case Ok(response) => Encode(w.response, response))
  }

  function AnswerTo(w: Wires, env: nat -> Choice, s: Session, msg: RpcMsg): (Session, Option<RpcMsg>) {
    if Supported(msg) then
      var (s', data) := RunCall(w, env, s, msg.body.call.data);
      (s', if data.Ok? then Some(NewSuccessReply(msg.xid, data.value)) else None)
    else (s, Some(NewProgMismatchReply(msg.xid)))
  }

  // A call of this program and version.
  predicate ForThisServer(msg: RpcMsg) {
    msg.body.Call? && msg.body.call.prog == 100003 && msg.body.call.progVers == 4
  }

  // The data is the response of running the request in some arguments, operation by operation, which
  // takes one session to another.
  ghost predicate Carries(w: Wires, env: nat -> Choice, s: Session, args: seq<byte>, s': Session, data: seq<byte>) {
    exists request, response ::
      && Decode(w.request, args) == Result.Ok(request)
      && Performs(s.server, request, env, s.tick, s'.server, s'.tick, Result.Ok(response))
      && Encode(w.response, response) == Result.Ok(data)
      && (Lawful(w.response) ==> Decode(w.response, data) == Result.Ok(response))
  }

  // The reply to a message: its xid, accepted, with an empty verifier; for a call of this program
  // and version success and the response, for anything else program mismatch and no data.
  ghost predicate ReplyTo(w: Wires, env: nat -> Choice, s: Session, msg: RpcMsg, s': Session, reply: RpcMsg) {
    && reply.xid == msg.xid
    && reply.body.Reply? && reply.body.reply.replyStat == 0 && reply.body.reply.data.Accepted?
    && var accepted := reply.body.reply.data.accepted;
    && accepted.verf.flavor == 0 && accepted.verf.body == []
    && if ForThisServer(msg)
       then accepted.stat == 0 && Carries(w, env, s, msg.body.call.data, s', accepted.data)
       else accepted.stat == 2 && accepted.data == [] && s' == s
  }

  // No reply: a call of this program and version whose arguments do not decode, or whose compound
  // gives no response or one that does not encode.
  ghost predicate Unanswered(w: Wires, env: nat -> Choice, s: Session, msg: RpcMsg, s': Session) {
    && ForThisServer(msg)
    && match Decode(w.request, msg.body.call.data)
       case Err => s' == s
       case Ok(request) =>
         exists r ::
           && Performs(s.server, request, env, s.tick, s'.server, s'.tick, r)
           && (r.Err? || Encode(w.response, r.value).Err?)
  }

  lemma RunCallExact(w: Wires, env: nat -> Choice, s: Session, args: seq<byte>, s': Session, data: seq<byte>)
    ensures RunCall(w, env, s, args) == (s', Result.Ok(data)) <==> Carries(w, env, s, args, s', data)
  {
    if Decode(w.request, args).Ok? {
      var request := Decode(w.request, args).value;
      var ran := Execute(s.server, Begin(request.operations), env, s.tick);
      var r := Respond(ran.compound, request.tag);
      PerformsExactly(s.server, request, env, s.tick, ran.server, ran.tick, r);
      forall response | Performs(s.server, request, env, s.tick, s'.server, s'.tick, Result.Ok(response))
        ensures r == Result.Ok(response) && s' == Session(ran.server, ran.tick)
      {
        PerformsExactly(s.server, request, env, s.tick, s'.server, s'.tick, Result.Ok(response));
      }
      if r.Ok? && Encode(w.response, r.value) == Result.Ok(data) && Lawful(w.response) {
        DecodeExact(w.response, data, r.value);
      }
    }
  }

  // The reply to a message is exactly what is sent for it.
  lemma AnswerExact(w: Wires, env: nat -> Choice, s: Session, msg: RpcMsg, s': Session, reply: RpcMsg)
    ensures AnswerTo(w, env, s, msg) == (s', Some(reply)) <==> ReplyTo(w, env, s, msg, s', reply)
  {
    if ForThisServer(msg) {
      var args := msg.body.call.data;
      if RunCall(w, env, s, args).1.Ok? {
        RunCallExact(w, env, s, args, s', RunCall(w, env, s, args).1.value);
      }
      if reply.body.Reply? && reply.body.reply.data.Accepted? {
        RunCallExact(w, env, s, args, s', reply.body.reply.data.accepted.data);
      }
    }
  }

  lemma UnansweredExact(w: Wires, env: nat -> Choice, s: Session, msg: RpcMsg, s': Session)
    ensures AnswerTo(w, env, s, msg) == (s', None) <==> Unanswered(w, env, s, msg, s')
  {
    if ForThisServer(msg) && Decode(w.request, msg.body.call.data).Ok? {
      var request := Decode(w.request, msg.body.call.data).value;
      var ran := Execute(s.server, Begin(request.operations), env, s.tick);
      var r := Respond(ran.compound, request.tag);
      PerformsExactly(s.server, request, env, s.tick, ran.server, ran.tick, r);
      forall q | Performs(s.server, request, env, s.tick, s'.server, s'.tick, q)
        ensures q == r && s' == Session(ran.server, ran.tick)
      {
        PerformsExactly(s.server, request, env, s.tick, s'.server, s'.tick, q);
      }
    }
  }

  lemma AnswerLaw(w: Wires, env: nat -> Choice, s: Session, msg: RpcMsg)
    ensures var (s', reply) := AnswerTo(w, env, s, msg);
      if reply.Some? then ReplyTo(w, env, s, msg, s', reply.value) else Unanswered(w, env, s, msg, s')
  {
    var (s', reply) := AnswerTo(w, env, s, msg);
    if reply.Some? {
      AnswerExact(w, env, s, msg, s', reply.value);
    } else {
      UnansweredExact(w, env, s, msg, s');
    }
  }

  // A call round trip: the reply to an encoded request has the call's xid and carries the response
  // of running it. There is none exactly when the compound gives no response, or one that cannot be
  // encoded.
  lemma CallRoundTrip(w: Wires, env: nat -> Choice, s: Session, msg: RpcMsg, request: CompoundRequest)
    requires Lawful(w.request) && Lawful(w.response)
    requires msg.body.Call? && msg.body.call.prog == 100003 && msg.body.call.progVers == 4
    requires Encode(w.request, request) == Result.Ok(msg.body.call.data)
    ensures var (s', reply) := AnswerTo(w, env, s, msg);
      exists r ::
        && Performs(s.server, request, env, s.tick, s'.server, s'.tick, r)
        && (reply.None? <==> r.Err? || Encode(w.response, r.value).Err?)
        && (reply.Some? ==>
              && reply.value.xid == msg.xid
              && reply.value.body.Reply? && reply.value.body.reply.replyStat == 0
              && reply.value.body.reply.data.Accepted?
              && var accepted := reply.value.body.reply.data.accepted;
              && accepted.verf.flavor == 0 && accepted.verf.body == [] && accepted.stat == 0
              && Decode(w.response, accepted.data) == r)
  {
    var (s', reply) := AnswerTo(w, env, s, msg);
    DecodeExact(w.request, msg.body.call.data, request);
    if reply.None? {
      UnansweredExact(w, env, s, msg, s');
    } else {
      AnswerExact(w, env, s, msg, s', reply.value);
    }
  }

  //---------------------------------------------------------------------------
  // Answering many
  //---------------------------------------------------------------------------

  // Any way of answering one message: None ends the connection.
  type Responder = (Session, RpcMsg) -> (Session, Option<RpcMsg>)

  function Responding(w: Wires, env: nat -> Choice): Responder {
    (s: Session, msg: RpcMsg) => AnswerTo(w, env, s, msg)
  }

  datatype Served = Served(session: Session, replies: seq<RpcMsg>)

  // A reply that cannot be encoded ends the connection too.
  predicate Answers(f: Responder, c: Wire, s: Session, msg: RpcMsg) {
    f(s, msg).1.Some? && Encode(c, f(s, msg).1.value).Ok?
  }

  // The replies to a list of messages, up to the first one that ends the connection.
  function Serve(f: Responder, c: Wire, s: Session, msgs: seq<RpcMsg>): (r: Served)
    ensures Encodable(c, r.replies) && |r.replies| <= |msgs|
    decreases |msgs|
  {
    if msgs == [] then Served(s, [])
    else
      var (s', reply) := f(s, msgs[0]);
      if !Answers(f, c, s, msgs[0]) then Served(s', [])
      else
        var rest := Serve(f, c, s', msgs[1..]);
        rest.(replies := [reply.value] + rest.replies)
  }

  // One reply per message of a prefix, in order, each on the session the ones before it left.
  ghost predicate Conversation(
    w: Wires, env: nat -> Choice, s: Session, msgs: seq<RpcMsg>, replies: seq<RpcMsg>, sessions: seq<Session>)
  {
    && |replies| <= |msgs| && |sessions| == |replies| + 1 && sessions[0] == s
    && forall i :: 0 <= i < |replies| ==> ReplyTo(w, env, sessions[i], msgs[i], sessions[i + 1], replies[i])
  }

  // No reply to the message can be sent.
  ghost predicate Unanswerable(w: Wires, env: nat -> Choice, s: Session, msg: RpcMsg) {
    forall s', reply :: ReplyTo(w, env, s, msg, s', reply) ==> Encode(w.rpc, reply).Err?
  }

  lemma StopExact(w: Wires, env: nat -> Choice, s: Session, msg: RpcMsg)
    requires !Answers(Responding(w, env), w.rpc, s, msg)
    ensures Unanswerable(w, env, s, msg)
  {
    forall s', reply | ReplyTo(w, env, s, msg, s', reply) ensures Encode(w.rpc, reply).Err? {
      AnswerExact(w, env, s, msg, s', reply);
    }
  }

  lemma ConversationCons(
    w: Wires, env: nat -> Choice, s: Session, msgs: seq<RpcMsg>, s': Session, reply: RpcMsg,
    replies: seq<RpcMsg>, sessions: seq<Session>)
    requires msgs != [] && ReplyTo(w, env, s, msgs[0], s', reply)
    requires Conversation(w, env, s', msgs[1..], replies, sessions)
    ensures Conversation(w, env, s, msgs, [reply] + replies, [s] + sessions)
  {
    var all, states := [reply] + replies, [s] + sessions;
    forall i | 0 <= i < |all| ensures ReplyTo(w, env, states[i], msgs[i], states[i + 1], all[i]) {
      if i > 0 {
        assert ReplyTo(w, env, sessions[i - 1], msgs[1..][i - 1], sessions[i], replies[i - 1]);
      }
    }
  }

  // Serving messages gives one matching reply for each, in order, and stops only at a message to
  // which no matching reply can be sent.
  lemma {:induction false} RepliesMatch(w: Wires, env: nat -> Choice, s: Session, msgs: seq<RpcMsg>)
    returns (sessions: seq<Session>)
    ensures var served := Serve(Responding(w, env), w.rpc, s, msgs);
      && Conversation(w, env, s, msgs, served.replies, sessions)
      && var n := |served.replies|;
      && (n == |msgs| ==> served.session == sessions[n])
      && (n < |msgs| ==> Unanswerable(w, env, sessions[n], msgs[n]))
    decreases |msgs|
  {
    sessions := [s];
    if msgs != [] {
      if Answers(Responding(w, env), w.rpc, s, msgs[0]) {
        var (s', reply) := AnswerTo(w, env, s, msgs[0]);
        AnswerExact(w, env, s, msgs[0], s', reply.value);
        var rest := RepliesMatch(w, env, s', msgs[1..]);
        ConversationCons(
          w, env, s, msgs, s', reply.value, Serve(Responding(w, env), w.rpc, s', msgs[1..]).replies, rest);
        sessions := [s] + rest;
      } else {
        StopExact(w, env, s, msgs[0]);
      }
    }
  }

  // Serving more messages goes on where the first ones left off, unless they ended the connection.
  lemma {:induction false} ServeSplit(f: Responder, c: Wire, s: Session, a: seq<RpcMsg>, b: seq<RpcMsg>)
    ensures var first := Serve(f, c, s, a);
      Serve(f, c, s, a + b) ==
        if |first.replies| < |a| then first
        else
          var second := Serve(f, c, first.session, b);
          second.(replies := first.replies + second.replies)
    decreases |a|
  {
    if a == [] {
      assert a + b == b;
    } else {
      var (s', reply) := f(s, a[0]);
      assert (a + b)[1..] == a[1..] + b;
      if Answers(f, c, s, a[0]) {
        ServeSplit(f, c, s', a[1..], b);
        var first := Serve(f, c, s', a[1..]);
        var later := Serve(f, c, first.session, b).replies;
        assert [reply.value] + (first.replies + later) == [reply.value] + first.replies + later;
      }
    }
  }

  //---------------------------------------------------------------------------
  // What has been sent
  //---------------------------------------------------------------------------

  // Every message so far answered and its reply sent.
  ghost predicate UpToDate(
    f: Responder, c: Wire, s: Session, msgs: seq<RpcMsg>, s': Session, before: seq<byte>, sent: seq<byte>)
  {
    var served := Serve(f, c, s, msgs);
    && served.session == s' && |served.replies| == |msgs|
    && sent == before + Frames(c, served.replies)
  }

  // The frames of the first n replies, and a part of the next one's frame.
  ghost predicate SentSoFar(c: Wire, replies: seq<RpcMsg>, before: seq<byte>, sent: seq<byte>, n: nat, tail: seq<byte>)
    requires Encodable(c, replies)
  {
    && n <= |replies|
    && sent == before + Frames(c, replies[..n]) + tail
    && (tail != [] ==> n < |replies| && tail <= FrameOf(c, replies[n]))
  }

  lemma UpToDateOne(
    f: Responder, c: Wire, s: Session, msgs: seq<RpcMsg>, s': Session, before: seq<byte>, sent: seq<byte>, msg: RpcMsg)
    requires UpToDate(f, c, s, msgs, s', before, sent) && Answers(f, c, s', msg)
    ensures UpToDate(f, c, s, msgs + [msg], f(s', msg).0, before, sent + FrameOf(c, f(s', msg).1.value))
  {
    var served, reply := Serve(f, c, s, msgs), f(s', msg).1.value;
    ServeSplit(f, c, s, msgs, [msg]);
    assert Serve(f, c, f(s', msg).0, [msg][1..]) == Served(f(s', msg).0, []);
    assert Serve(f, c, s', [msg]) == Served(f(s', msg).0, [reply]);
    FramesAppend(c, served.replies, reply);
    assert before + (Frames(c, served.replies) + FrameOf(c, reply)) == sent + FrameOf(c, reply);
  }

  // The replies sent so far, in terms of the whole input, and whether the next message has one.
  lemma Standing(
    f: Responder, c: Wire, s: Session, msgs: seq<RpcMsg>, more: seq<RpcMsg>, s': Session,
    before: seq<byte>, sent: seq<byte>)
    requires UpToDate(f, c, s, msgs, s', before, sent)
    ensures var all := Serve(f, c, s, msgs + more);
      && SentSoFar(c, all.replies, before, sent, |msgs|, [])
      && (more == [] ==> all.session == s' && |all.replies| == |msgs|)
      && (more != [] ==>
            if Answers(f, c, s', more[0])
            then |all.replies| > |msgs| && all.replies[|msgs|] == f(s', more[0]).1.value
            else |all.replies| == |msgs|)
  {
    ServeSplit(f, c, s, msgs, more);
    var first, all := Serve(f, c, s, msgs), Serve(f, c, s, msgs + more);
    assert all.replies[..|msgs|] == first.replies;
  }

  lemma {:induction false} FramesJoin(c: Wire, a: seq<RpcMsg>, b: seq<RpcMsg>)
    requires Encodable(c, a) && Encodable(c, b)
    ensures Frames(c, a + b) == Frames(c, a) + Frames(c, b)
  {
    if a == [] {
      assert a + b == b;
    } else {
      assert (a + b)[1..] == a[1..] + b;
      FramesJoin(c, a[1..], b);
    }
  }

  lemma SlicePrefix<T>(first: seq<T>, later: seq<T>, all: seq<T>, n: nat)
    requires n <= |later| && first + later <= all
    ensures all[..|first| + n] == first + later[..n]
    ensures n < |later| ==> all[|first| + n] == later[n]
  {
  }

  lemma FramesSlice(c: Wire, first: seq<RpcMsg>, later: seq<RpcMsg>, all: seq<RpcMsg>, n: nat)
    requires Encodable(c, first) && Encodable(c, later) && Encodable(c, all)
    requires n <= |later| && first + later <= all
    ensures Frames(c, all[..|first| + n]) == Frames(c, first) + Frames(c, later[..n])
  {
    var front := later[..n];
    FramesJoin(c, first, front);
    assert all[..|first| + n] == first + front by {
      SlicePrefix(first, later, all, n);
    }
  }

  // What went out for some messages after being up to date, in terms of the whole input.
  lemma SentLater(c: Wire, first: seq<RpcMsg>, later: seq<RpcMsg>, all: seq<RpcMsg>,
                  before: seq<byte>, mid: seq<byte>, sent: seq<byte>, n: nat, tail: seq<byte>)
    requires Encodable(c, first) && Encodable(c, later) && Encodable(c, all) && first + later <= all
    requires mid == before + Frames(c, first) && SentSoFar(c, later, mid, sent, n, tail)
    ensures SentSoFar(c, all, before, sent, |first| + n, tail)
  {
    FramesSlice(c, first, later, all, n);
    SlicePrefix(first, later, all, n);
    Regroup(before, Frames(c, first), Frames(c, later[..n]), tail);
  }

  lemma Regroup(a: seq<byte>, b: seq<byte>, c: seq<byte>, d: seq<byte>)
    ensures a + b + c + d == a + (b + c) + d
  {
  }

  // Answering on after being up to date: all of it, or the part that went out.
  lemma ContinuesToEnd(
    f: Responder, c: Wire, s: Session, msgs: seq<RpcMsg>, s': Session, next: seq<RpcMsg>,
    before: seq<byte>, mid: seq<byte>, sent: seq<byte>)
    requires UpToDate(f, c, s, msgs, s', before, mid)
    requires |Serve(f, c, s', next).replies| == |next|
    requires SentSoFar(c, Serve(f, c, s', next).replies, mid, sent, |next|, [])
    ensures UpToDate(f, c, s, msgs + next, Serve(f, c, s', next).session, before, sent)
  {
    var first, later := Serve(f, c, s, msgs).replies, Serve(f, c, s', next).replies;
    ServeSplit(f, c, s, msgs, next);
    FramesJoin(c, first, later);
    assert later[..|next|] == later;
    Regroup(before, Frames(c, first), Frames(c, later), []);
  }

  lemma ContinuesInPart(
    f: Responder, c: Wire, s: Session, msgs: seq<RpcMsg>, s': Session, next: seq<RpcMsg>, more: seq<RpcMsg>,
    before: seq<byte>, mid: seq<byte>, sent: seq<byte>, n: nat, tail: seq<byte>)
    requires UpToDate(f, c, s, msgs, s', before, mid)
    requires SentSoFar(c, Serve(f, c, s', next).replies, mid, sent, n, tail)
    ensures var later, all := Serve(f, c, s', next).replies, Serve(f, c, s, msgs + next + more).replies;
      && SentSoFar(c, all, before, sent, |msgs| + n, tail)
      && (|later| < |next| || more == [] ==> |all| == |msgs| + |later|)
  {
    var first, later := Serve(f, c, s, msgs).replies, Serve(f, c, s', next).replies;
    ServeSplit(f, c, s, msgs, next);
    ServeSplit(f, c, s, msgs + next, more);
    var all := Serve(f, c, s, msgs + next + more).replies;
    assert Serve(f, c, s, msgs + next).replies == first + later;
    SentLater(c, first, later, all, before, mid, sent, n, tail);
  }

  //---------------------------------------------------------------------------
  // The socket
  //---------------------------------------------------------------------------

  datatype Arrival = Bytes(bytes: seq<byte>) | ReadFailure

  // What read_buf delivers before it reports the end or fails.
  function Chunks(incoming: seq<Arrival>): seq<seq<byte>> {
    if incoming == [] || incoming[0] == ReadFailure || incoming[0].bytes == [] then []
    else [incoming[0].bytes] + Chunks(incoming[1..])
  }

  predicate ClosesCleanly(incoming: seq<Arrival>) {
    incoming == [] || (incoming[0].Bytes? && (incoming[0].bytes == [] || ClosesCleanly(incoming[1..])))
  }

  predicate Delivers(incoming: seq<Arrival>) {
    incoming != [] && incoming[0].Bytes? && incoming[0].bytes != []
  }

  lemma NextChunk(incoming: seq<Arrival>, done: seq<byte>)
    ensures Delivers(incoming) ==>
      && done + Flatten(Chunks(incoming)) == done + incoming[0].bytes + Flatten(Chunks(incoming[1..]))
      && (ClosesCleanly(incoming) <==> ClosesCleanly(incoming[1..]))
    ensures !Delivers(incoming) ==>
      && done + Flatten(Chunks(incoming)) == done
      && (ClosesCleanly(incoming) <==> incoming == [] || incoming[0].Bytes?)
  {
    if Delivers(incoming) {
      assert Chunks(incoming)[1..] == Chunks(incoming[1..]);
      var rest := Flatten(Chunks(incoming[1..]));
      assert done + (incoming[0].bytes + rest) == done + incoming[0].bytes + rest;
    }
  }

  // The chunks are the arrivals up to the first empty one, which is how the peer closes, or the
  // first failing one.
  lemma {:induction false} ChunksExact(incoming: seq<Arrival>)
    ensures var chunks := Chunks(incoming);
      var k := |chunks|;
      && k <= |incoming|
      && (forall i :: 0 <= i < k ==> chunks[i] != [] && incoming[i] == Bytes(chunks[i]))
      && (k < |incoming| ==> incoming[k] == ReadFailure || incoming[k] == Bytes([]))
      && (ClosesCleanly(incoming) <==> k == |incoming| || incoming[k] == Bytes([]))
  {
    if Delivers(incoming) {
      ChunksExact(incoming[1..]);
      assert Chunks(incoming)[1..] == Chunks(incoming[1..]);
    }
  }

  class TcpStream {
    // What the transport will deliver, read by read; then the peer has closed.
    var incoming: seq<Arrival>
    var sent: seq<byte>
    var writes: nat
    // For each write, None if it succeeds and otherwise how many bytes go out before it fails.
    const faults: nat -> Option<nat>

    ghost predicate Faultless() {
      forall i: nat :: faults(i).None?
    }

    constructor (incoming: seq<Arrival>, faults: nat -> Option<nat>)
      ensures this.incoming == incoming && this.faults == faults && sent == [] && writes == 0
    {
      this.incoming := incoming;
      this.faults := faults;
      this.sent := [];
      this.writes := 0;
    }

    method ReadBuf(buf: BytesMut) returns (r: Result<nat>)
      modifies this`incoming, buf
      ensures incoming == if old(incoming) == [] then [] else old(incoming)[1..]
      ensures r.Err? <==> old(incoming) != [] && old(incoming)[0].ReadFailure?
      ensures r.Ok? ==>
        var got := if old(incoming) == [] then [] else old(incoming)[0].bytes;
        r.value == |got| && buf.bytes == old(buf.bytes) + got
    {
      if incoming == [] {
        return Result.Ok(0);
      }
      var next := incoming[0];
      incoming := incoming[1..];
      if next.ReadFailure? {
        return Err;
      }
      buf.PutSlice(next.bytes);
      return Result.Ok(|next.bytes|);
    }

    method WriteAll(bytes: seq<byte>) returns (ok: bool, ghost out: seq<byte>)
      modifies this`sent, this`writes
      ensures out <= bytes && sent == old(sent) + out
      ensures ok ==> out == bytes
      ensures Faultless() ==> ok
    {
      var fault := faults(writes);
      writes := writes + 1;
      ok := fault.None?;
      var n := if ok then |bytes| else Min(fault.value, |bytes|);
      out := bytes[..n];
      sent := sent + bytes[..n];
    }
  }

  // The length, then the encoding. On failure some prefix of the frame has gone out.
  method SendFrame(w: Wires, socket: TcpStream, msg: RpcMsg) returns (ok: bool, ghost out: seq<byte>)
    requires Encode(w.rpc, msg).Ok?
    modifies socket`sent, socket`writes
    ensures out <= FrameOf(w.rpc, msg) && socket.sent == old(socket.sent) + out
    ensures ok ==> out == FrameOf(w.rpc, msg)
    ensures ok ==>
      var e := Encode(w.rpc, msg).value;
      out == Be32(|e| % 0x1_0000_0000) + e
    ensures socket.Faultless() ==> ok
  {
    var encoded := Encode(w.rpc, msg).value;
    ok, out := socket.WriteAll(Be32(Truncate32(|encoded|)));
    if ok {
      ghost var more;
      ok, more := socket.WriteAll(encoded);
      out := out + more;
    }
  }

  //---------------------------------------------------------------------------
  // The connection
  //---------------------------------------------------------------------------

  ghost function SessionOf(server: NfsServer): Session
    reads server
  {
    Session(server.State(), server.tick)
  }

  // Runs a call of this program and version and answers success with its xid and the response;
  // answers program mismatch to anything else. Without a reply the connection is to end.
  method AnswerMessage(w: Wires, server: NfsServer, msg: RpcMsg) returns (reply: Option<RpcMsg>)
    modifies server
    ensures (SessionOf(server), reply) == Responding(w, server.env)(old(SessionOf(server)), msg)
    ensures reply.Some? ==> ReplyTo(w, server.env, old(SessionOf(server)), msg, SessionOf(server), reply.value)
    ensures reply.None? ==> Unanswered(w, server.env, old(SessionOf(server)), msg, SessionOf(server))
  {
    AnswerLaw(w, server.env, SessionOf(server), msg);
    if msg.body.Call? && msg.body.call.prog == NFS_PROGRAM && msg.body.call.progVers == NFS_VERSION {
      var request := Decode(w.request, msg.body.call.data);
      if request.Err? {
        return None;
      }
      var response, _, _ := server.HandleCompound(request.value);
      if response.Err? {
        return None;
      }
      var data := Encode(w.response, response.value);
      if data.Err? {
        return None;
      }
      return Some(NewSuccessReply(msg.xid, data.value));
    } else {
      return Some(NewProgMismatchReply(msg.xid));
    }
  }

  // How answering a buffer ends, given the bytes it held: which replies went out, that success
  // means all of them, and that only a failing write stops short of what can be answered.
  ghost predicate Buffered(
    f: Responder, c: Wire, s: Session, bytes: seq<byte>, before: seq<byte>, faultless: bool,
    ok: bool, s': Session, rest: seq<byte>, sent: seq<byte>, n: nat, tail: seq<byte>)
  {
    Answered(f, c, s, Drain(c, bytes), before, faultless, ok, s', rest, sent, n, tail)
  }

  // The same, given what the buffer drains to.
  ghost predicate Answered(
    f: Responder, c: Wire, s: Session, d: Drained, before: seq<byte>, faultless: bool,
    ok: bool, s': Session, rest: seq<byte>, sent: seq<byte>, n: nat, tail: seq<byte>)
  {
    var all := Serve(f, c, s, d.msgs);
    && SentSoFar(c, all.replies, before, sent, n, tail)
    && (ok ==> n == |d.msgs| == |all.replies| && tail == [] && !d.failed && rest == d.rest && s' == all.session)
    && (faultless ==> n == |all.replies| && tail == [] && (ok <==> !d.failed && |all.replies| == |d.msgs|))
  }

  // The state of the inner loop.
  ghost predicate Answering(
    f: Responder, c: Wire, s: Session, bytes: seq<byte>, before: seq<byte>, msgs: seq<RpcMsg>,
    s': Session, rest: seq<byte>, sent: seq<byte>)
  {
    Drain(c, bytes) == Then(msgs, Drain(c, rest)) && UpToDate(f, c, s, msgs, s', before, sent)
  }

  lemma BufferedAll(
    f: Responder, c: Wire, s: Session, bytes: seq<byte>, before: seq<byte>, faultless: bool, msgs: seq<RpcMsg>,
    s': Session, rest: seq<byte>, sent: seq<byte>)
    requires Answering(f, c, s, bytes, before, msgs, s', rest, sent) && ReadFrame(c, rest) == Incomplete
    ensures Buffered(f, c, s, bytes, before, faultless, true, s', rest, sent, |msgs|, [])
  {
    assert msgs + [] == msgs;
    Standing(f, c, s, msgs, [], s', before, sent);
  }

  lemma BufferedStopped(
    f: Responder, c: Wire, s: Session, bytes: seq<byte>, before: seq<byte>, faultless: bool, msgs: seq<RpcMsg>,
    s': Session, rest: seq<byte>, sent: seq<byte>, s'': Session, rest': seq<byte>)
    requires Answering(f, c, s, bytes, before, msgs, s', rest, sent) && ReadFrame(c, rest).Complete?
    requires ReadFrame(c, rest).msg.Ok? ==> !Answers(f, c, s', ReadFrame(c, rest).msg.value)
    ensures Buffered(f, c, s, bytes, before, faultless, false, s'', rest', sent, |msgs|, [])
  {
    Standing(f, c, s, msgs, Drain(c, rest).msgs, s', before, sent);
  }

  lemma BufferedCut(
    f: Responder, c: Wire, s: Session, bytes: seq<byte>, before: seq<byte>, msgs: seq<RpcMsg>,
    s': Session, rest: seq<byte>, sent: seq<byte>, s'': Session, rest': seq<byte>, tail: seq<byte>)
    requires Answering(f, c, s, bytes, before, msgs, s', rest, sent)
    requires ReadFrame(c, rest).Complete? && ReadFrame(c, rest).msg.Ok?
    requires Answers(f, c, s', ReadFrame(c, rest).msg.value)
    requires tail <= FrameOf(c, f(s', ReadFrame(c, rest).msg.value).1.value)
    ensures Buffered(f, c, s, bytes, before, false, false, s'', rest', sent + tail, |msgs|, tail)
  {
    Standing(f, c, s, msgs, Drain(c, rest).msgs, s', before, sent);
  }

  lemma AnsweringOne(
    f: Responder, c: Wire, s: Session, bytes: seq<byte>, before: seq<byte>, msgs: seq<RpcMsg>,
    s': Session, rest: seq<byte>, sent: seq<byte>)
    requires Answering(f, c, s, bytes, before, msgs, s', rest, sent)
    requires ReadFrame(c, rest).Complete? && ReadFrame(c, rest).msg.Ok?
    requires Answers(f, c, s', ReadFrame(c, rest).msg.value)
    ensures var msg := ReadFrame(c, rest).msg.value;
      Answering(f, c, s, bytes, before, msgs + [msg], f(s', msg).0, ReadFrame(c, rest).rest,
                sent + FrameOf(c, f(s', msg).1.value))
  {
    var msg := ReadFrame(c, rest).msg.value;
    UpToDateOne(f, c, s, msgs, s', before, sent, msg);
    var later := Drain(c, ReadFrame(c, rest).rest).msgs;
    assert msgs + ([msg] + later) == (msgs + [msg]) + later;
  }

  // The inner loop: answer every complete message in the buffer.
  method AnswerBuffered(w: Wires, socket: TcpStream, buf: BytesMut, server: NfsServer, ghost f: Responder)
    returns (r: Result<()>, ghost n: nat, ghost tail: seq<byte>)
    requires f == Responding(w, server.env)
    modifies socket`sent, socket`writes, buf, server
    ensures Buffered(f, w.rpc, old(SessionOf(server)), old(buf.bytes), old(socket.sent), socket.Faultless(),
                     r.Ok?, SessionOf(server), buf.bytes, socket.sent, n, tail)
  {
    ghost var c, s, bytes, before := w.rpc, SessionOf(server), buf.bytes, socket.sent;
    ghost var faultless := socket.Faultless();
    ghost var msgs: seq<RpcMsg> := [];
    assert Then([], Drain(c, bytes)).msgs == Drain(c, bytes).msgs;
    assert before + [] == before;
    while true
      invariant Answering(f, c, s, bytes, before, msgs, SessionOf(server), buf.bytes, socket.sent)
      decreases |buf.bytes|
    {
      ghost var s', rest, sent := SessionOf(server), buf.bytes, socket.sent;
      var next := ReadRpcMessage(w.rpc, buf);
      if next.None? {
        BufferedAll(f, c, s, bytes, before, faultless, msgs, s', rest, sent);
        return Result.Ok(()), |msgs|, [];
      }
      if next.value.Err? {
        BufferedStopped(f, c, s, bytes, before, faultless, msgs, s', rest, sent, SessionOf(server), buf.bytes);
        return Err, |msgs|, [];
      }
      var msg := next.value.value;
      var reply := AnswerMessage(w, server, msg);
      if reply.None? || Encode(w.rpc, reply.value).Err? {
        BufferedStopped(f, c, s, bytes, before, faultless, msgs, s', rest, sent, SessionOf(server), buf.bytes);
        return Err, |msgs|, [];
      }
      var ok;
      ok, tail := SendFrame(w, socket, reply.value);
      if !ok {
        BufferedCut(f, c, s, bytes, before, msgs, s', rest, sent, SessionOf(server), buf.bytes, tail);
        return Err, |msgs|, tail;
      }
      AnsweringOne(f, c, s, bytes, before, msgs, s', rest, sent);
      msgs := msgs + [msg];
    }
  }

  // How a connection ends, given everything the transport delivered.
  ghost predicate Concluded(
    f: Responder, c: Wire, s: Session, input: seq<byte>, clean: bool, before: seq<byte>, faultless: bool,
    ok: bool, s': Session, sent: seq<byte>, n: nat, tail: seq<byte>)
  {
    Over(f, c, s, Drain(c, input), clean, before, faultless, ok, s', sent, n, tail)
  }

  // The same, given what the input drains to.
  ghost predicate Over(
    f: Responder, c: Wire, s: Session, whole: Drained, clean: bool, before: seq<byte>, faultless: bool,
    ok: bool, s': Session, sent: seq<byte>, n: nat, tail: seq<byte>)
  {
    var all := Serve(f, c, s, whole.msgs);
    && SentSoFar(c, all.replies, before, sent, n, tail)
    && (ok ==> n == |whole.msgs| && tail == [] && !whole.failed && s' == all.session)
    && (faultless ==> n == |all.replies| && tail == []
                      && (ok <==> !whole.failed && |all.replies| == |whole.msgs| && clean))
  }

  lemma ConcludedByEnd(
    f: Responder, c: Wire, s: Session, input: seq<byte>, clean: bool, before: seq<byte>, faultless: bool,
    ok: bool, s': Session, sent: seq<byte>, n: nat, tail: seq<byte>)
    requires !Drain(c, input).failed && UpToDate(f, c, s, Drain(c, input).msgs, s', before, sent)
    requires (ok <==> clean) && n == |Drain(c, input).msgs| && tail == []
    ensures Concluded(f, c, s, input, clean, before, faultless, ok, s', sent, n, tail)
  {
    var msgs := Drain(c, input).msgs;
    assert msgs + [] == msgs;
    Standing(f, c, s, msgs, [], s', before, sent);
  }

  // What draining one chunk more says about the drain of the whole input.
  ghost predicate Extends(msgs: seq<RpcMsg>, d: Drained, whole: Drained) {
    && msgs + d.msgs <= whole.msgs
    && (d.failed ==> whole.failed && whole.msgs == msgs + d.msgs)
  }

  lemma Chunked(
    c: Wire, input: seq<byte>, done: seq<byte>, residue: seq<byte>, chunk: seq<byte>, later: seq<byte>)
    requires !Drain(c, done).failed && residue == Drain(c, done).rest && input == done + chunk + later
    ensures Extends(Drain(c, done).msgs, Drain(c, residue + chunk), Drain(c, input))
  {
    DrainSplit(c, done, chunk);
    DrainSplit(c, done + chunk, later);
  }

  // Between chunks: every message so far answered, and the residue buffered.
  ghost predicate Between(
    f: Responder, c: Wire, s: Session, done: seq<byte>, before: seq<byte>, s': Session, residue: seq<byte>,
    sent: seq<byte>)
  {
    && !Drain(c, done).failed && residue == Drain(c, done).rest
    && UpToDate(f, c, s, Drain(c, done).msgs, s', before, sent)
  }

  lemma BetweenAtStart(f: Responder, c: Wire, s: Session, before: seq<byte>)
    ensures Between(f, c, s, [], before, s, [], before)
  {
    assert before + [] == before;
  }

  lemma ChunkAnswered(
    f: Responder, c: Wire, s: Session, done: seq<byte>, residue: seq<byte>, chunk: seq<byte>, before: seq<byte>,
    faultless: bool, s': Session, mid: seq<byte>, s'': Session, rest: seq<byte>, sent: seq<byte>, n: nat,
    tail: seq<byte>)
    requires Between(f, c, s, done, before, s', residue, mid)
    requires Buffered(f, c, s', residue + chunk, mid, faultless, true, s'', rest, sent, n, tail)
    ensures Between(f, c, s, done + chunk, before, s'', rest, sent)
  {
    DrainSplit(c, done, chunk);
    ContinuesToEnd(f, c, s, Drain(c, done).msgs, s', Drain(c, residue + chunk).msgs, before, mid, sent);
  }

  // Answering that stopped within the messages of one drain, in terms of the whole input.
  lemma StoppedShort(
    f: Responder, c: Wire, s: Session, msgs: seq<RpcMsg>, s': Session, d: Drained, whole: Drained, clean: bool,
    before: seq<byte>, faultless: bool, mid: seq<byte>, ok: bool, s'': Session, rest: seq<byte>, sent: seq<byte>,
    most: nat, tail: seq<byte>)
    requires UpToDate(f, c, s, msgs, s', before, mid) && Extends(msgs, d, whole) && !ok
    requires Answered(f, c, s', d, mid, faultless, ok, s'', rest, sent, most, tail)
    ensures Over(f, c, s, whole, clean, before, faultless, ok, s'', sent, |msgs| + most, tail)
  {
    var more := whole.msgs[|msgs + d.msgs|..];
    assert whole.msgs == msgs + d.msgs + more;
    ContinuesInPart(f, c, s, msgs, s', d.msgs, more, before, mid, sent, most, tail);
  }

  lemma ChunkStopped(
    f: Responder, c: Wire, s: Session, input: seq<byte>, done: seq<byte>, residue: seq<byte>, chunk: seq<byte>,
    later: seq<byte>, clean: bool, before: seq<byte>, faultless: bool, s': Session, mid: seq<byte>,
    ok: bool, s'': Session, rest: seq<byte>, sent: seq<byte>, most: nat, n: nat, tail: seq<byte>)
    requires Between(f, c, s, done, before, s', residue, mid)
    requires Buffered(f, c, s', residue + chunk, mid, faultless, ok, s'', rest, sent, most, tail)
    requires !ok && input == done + chunk + later && n == |Drain(c, done).msgs| + most
    ensures Concluded(f, c, s, input, clean, before, faultless, ok, s'', sent, n, tail)
  {
    Chunked(c, input, done, residue, chunk, later);
    StoppedShort(f, c, s, Drain(c, done).msgs, s', Drain(c, residue + chunk), Drain(c, input), clean,
                 before, faultless, mid, ok, s'', rest, sent, most, tail);
  }

  // Whatever the chunks, a connection answers a prefix of the messages in the whole input, in
  // order, and sends nothing else. Without a failing write the prefix is all that can be answered,
  // and the connection ends well exactly when every frame decodes, every message is answered, and
  // the peer closes.
  method HandleClient(w: Wires, socket: TcpStream, server: NfsServer)
    returns (r: Result<()>, ghost n: nat, ghost tail: seq<byte>)
    modifies socket`incoming, socket`sent, socket`writes, server
    ensures Concluded(
      Responding(w, server.env), w.rpc, old(SessionOf(server)), Flatten(Chunks(old(socket.incoming))),
      ClosesCleanly(old(socket.incoming)), old(socket.sent), socket.Faultless(),
      r.Ok?, SessionOf(server), socket.sent, n, tail)
  {
    var buf := new BytesMut();
    ghost var f, c, s, before := Responding(w, server.env), w.rpc, SessionOf(server), socket.sent;
    ghost var input, clean := Flatten(Chunks(socket.incoming)), ClosesCleanly(socket.incoming);
    ghost var faultless := socket.Faultless();
    ghost var done: seq<byte> := [];
    BetweenAtStart(f, c, s, before);
    while true
      invariant Between(f, c, s, done, before, SessionOf(server), buf.bytes, socket.sent)
      invariant input == done + Flatten(Chunks(socket.incoming))
      invariant clean <==> ClosesCleanly(socket.incoming)
      decreases |socket.incoming|
    {
      ghost var pending, residue := socket.incoming, buf.bytes;
      NextChunk(pending, done);
      var count := socket.ReadBuf(buf);
      if count.Err? || count.value == 0 {
        r, n, tail := if count.Err? then Err else Result.Ok(()), |Drain(c, input).msgs|, [];
        ConcludedByEnd(f, c, s, input, clean, before, faultless, r.Ok?, SessionOf(server), socket.sent, n, tail);
        return;
      }
      ghost var chunk, later := pending[0].bytes, Flatten(Chunks(socket.incoming));
      ghost var s', mid := SessionOf(server), socket.sent;
      r, n, tail := AnswerBuffered(w, socket, buf, server, f);
      if r.Err? {
        ghost var most := n;
        n := |Drain(c, done).msgs| + most;
        ChunkStopped(f, c, s, input, done, residue, chunk, later, clean, before, faultless, s', mid,
                     r.Ok?, SessionOf(server), buf.bytes, socket.sent, most, n, tail);
        return;
      }
      ChunkAnswered(f, c, s, done, residue, chunk, before, faultless, s', mid,
                    SessionOf(server), buf.bytes, socket.sent, n, tail);
      done := done + chunk;
    }
  }

  //---------------------------------------------------------------------------
  // What the client gets
  //---------------------------------------------------------------------------

  // The replies that have gone out whole.
  function Whole(c: Wire, replies: seq<RpcMsg>, n: nat, tail: seq<byte>): seq<RpcMsg>
    requires n <= |replies| && (tail != [] ==> n < |replies| && Encode(c, replies[n]).Ok?)
  {
    if tail != [] && tail == FrameOf(c, replies[n]) then replies[..n + 1] else replies[..n]
  }

  // A part of a frame decodes to nothing: it is incomplete, or an oversize message's wrapped length
  // cuts its encoding short.
  lemma PartYieldsNothing(c: Wire, msg: RpcMsg, part: seq<byte>)
    requires Lawful(c) && Encode(c, msg).Ok? && part <= FrameOf(c, msg) && part != FrameOf(c, msg)
    ensures Drain(c, part).msgs == []
    ensures Small(c, msg) ==> Drain(c, part) == Drained([], part, false)
  {
    if Small(c, msg) {
      CutFrameIncomplete(c, msg, |part|);
      assert part == FrameOf(c, msg)[..|part|];
    } else if ReadFrame(c, part).Complete? {
      var rest := FrameOf(c, msg)[|part|..];
      assert part + rest == FrameOf(c, msg) + [];
      FrameStable(c, part, rest);
      WriteReadExact(c, msg, []);
    }
  }

  // A client that parses what it was sent gets back the replies that went out whole, up to the
  // first oversize one. If there is none, and none was being sent, a part of a frame stays unread.
  lemma OutputParses(c: Wire, replies: seq<RpcMsg>, sent: seq<byte>, n: nat, tail: seq<byte>)
    requires Lawful(c) && Encodable(c, replies) && SentSoFar(c, replies, [], sent, n, tail)
    ensures var d, whole := Drain(c, sent), Whole(c, replies, n, tail);
      && d.msgs == whole[..SmallCount(c, whole)]
      && (SmallCount(c, whole) < |whole| ==> d.failed)
      && (SmallCount(c, replies) == |replies| ==> !d.failed && d.rest == if |whole| > n then [] else tail)
  {
    var front, whole := replies[..n], Whole(c, replies, n, tail);
    assert sent == Frames(c, front) + tail;
    if |whole| > n {
      assert whole == front + [replies[n]];
      FramesAppend(c, front, replies[n]);
      assert sent == Frames(c, whole) + [];
      FramesThenNothing(c, whole, []);
    } else {
      if tail != [] {
        PartYieldsNothing(c, replies[n], tail);
      }
      FramesThenNothing(c, front, tail);
    }
  }

  lemma ConversationPrefix(
    w: Wires, env: nat -> Choice, s: Session, msgs: seq<RpcMsg>, replies: seq<RpcMsg>, sessions: seq<Session>,
    got: seq<RpcMsg>)
    requires Conversation(w, env, s, msgs, replies, sessions) && got <= replies
    ensures Conversation(w, env, s, msgs, got, sessions[..|got| + 1])
  {
  }

  // The whole exchange, from the bytes that came in to what the client makes of the bytes it got:
  // one matching reply for each message of a prefix of the input, in order. With no failing write
  // and no reply too long for its length field, the prefix is all that can be answered; and if the
  // connection ended well, that is every message.
  lemma ClientGetsReplies(
    w: Wires, env: nat -> Choice, s: Session, input: seq<byte>, clean: bool, faultless: bool, ok: bool,
    s': Session, sent: seq<byte>, n: nat, tail: seq<byte>)
    returns (sessions: seq<Session>)
    requires Lawful(w.rpc)
    requires Concluded(Responding(w, env), w.rpc, s, input, clean, [], faultless, ok, s', sent, n, tail)
    ensures var msgs, got := Drain(w.rpc, input).msgs, Drain(w.rpc, sent).msgs;
      var replies := Serve(Responding(w, env), w.rpc, s, msgs).replies;
      && Conversation(w, env, s, msgs, got, sessions)
      && (faultless && SmallCount(w.rpc, replies) == |replies| ==>
            |got| == |msgs| || Unanswerable(w, env, sessions[|got|], msgs[|got|]))
      && (ok && SmallCount(w.rpc, replies) == |replies| ==> |got| == |msgs| && s' == sessions[|got|])
  {
    var msgs, got := Drain(w.rpc, input).msgs, Drain(w.rpc, sent).msgs;
    var replies := Serve(Responding(w, env), w.rpc, s, msgs).replies;
    GotPrefix(w.rpc, replies, sent, n, tail);
    var all := RepliesMatch(w, env, s, msgs);
    ConversationPrefix(w, env, s, msgs, replies, all, got);
    sessions := all[..|got| + 1];
  }

  lemma GotPrefix(c: Wire, replies: seq<RpcMsg>, sent: seq<byte>, n: nat, tail: seq<byte>)
    requires Lawful(c) && Encodable(c, replies) && SentSoFar(c, replies, [], sent, n, tail)
    ensures Drain(c, sent).msgs <= replies
    ensures SmallCount(c, replies) == |replies| ==> Drain(c, sent).msgs == Whole(c, replies, n, tail)
  {
    var whole := Whole(c, replies, n, tail);
    OutputParses(c, replies, sent, n, tail);
    assert whole <= replies;
    if SmallCount(c, replies) == |replies| {
      assert forall i :: 0 <= i < |whole| ==> Small(c, whole[i]);
    }
  }
}
