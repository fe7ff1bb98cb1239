/** The remote-procedure messages and their constructors. */
module Rpc {
  import opened Words

  const MSG_ACCEPTED: u32 := 0
  const SUCCESS: u32 := 0
  const PROG_MISMATCH: u32 := 2
  const AUTH_NONE: u32 := 0

  datatype OpaqueAuth = OpaqueAuth(flavor: u32, body: seq<byte>)

  datatype CallBody = CallBody(
    rpcVers: u32,
    prog: u32,
    progVers: u32,
    proc: u32,
    cred: OpaqueAuth,
    verf: OpaqueAuth,
    data: seq<byte>)

  datatype AcceptedReply = AcceptedReply(verf: OpaqueAuth, stat: u32, data: seq<byte>)
  datatype RejectedReply = RejectedReply(stat: u32, data: seq<byte>)
  datatype ReplyData = Accepted(accepted: AcceptedReply) | Rejected(rejected: RejectedReply)
  datatype ReplyBody = ReplyBody(replyStat: u32, data: ReplyData)
  datatype RpcMsgBody = Call(call: CallBody) | Reply(reply: ReplyBody)
  datatype RpcMsg = RpcMsg(xid: u32, body: RpcMsgBody)

  const NO_AUTH := OpaqueAuth(AUTH_NONE, [])

  function AcceptedMsg(xid: u32, stat: u32, data: seq<byte>): RpcMsg {
    RpcMsg(xid, Reply(ReplyBody(MSG_ACCEPTED, Accepted(AcceptedReply(NO_AUTH, stat, data)))))
  }

  function NewSuccessReply(xid: u32, data: seq<byte>): RpcMsg {
    AcceptedMsg(xid, SUCCESS, data)
  }

  function NewProgMismatchReply(xid: u32): RpcMsg {
    AcceptedMsg(xid, PROG_MISMATCH, [])
  }
}
