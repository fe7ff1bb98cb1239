/**
 Length-prefixed framing over a growing buffer: what a reader extracts from a
 byte stream, however the stream is cut, and when it gets back what a writer
 appended.
 */
module Framing {
  import opened Wrappers
  import opened Sequences
  import opened Words
  import opened Xdr
  import opened Rpc

  // Everything here holds of any lawful codec for the messages; RpcCodec has a concrete one.
  type Wire = Codec<RpcMsg>

  //---------------------------------------------------------------------------
  // One frame
  //---------------------------------------------------------------------------

  datatype Frame = Incomplete | Complete(msg: Result<RpcMsg>, rest: seq<byte>)

  function ReadFrame(c: Wire, buf: seq<byte>): Frame {
    if |buf| < 4 || |buf| < FromBe32(buf) + 4 then Incomplete
    else
      var end := FromBe32(buf) + 4;
      Complete(Decode(c, buf[4..end]), buf[end..])
  }

  // The bytes appended for a message. The length is cut to 32 bits, as in the source.
  function FrameOf(c: Wire, msg: RpcMsg): seq<byte>
    requires Encode(c, msg).Ok?
  {
    Be32(Truncate32(|Encode(c, msg).value|)) + Encode(c, msg).value
  }

  // The message's encoding fits the length field.
  predicate Small(c: Wire, msg: RpcMsg) {
    Encode(c, msg).Ok? && |Encode(c, msg).value| < 0x1_0000_0000
  }

  // A length followed by that many bytes.
  ghost predicate Splits(buf: seq<byte>, body: seq<byte>, rest: seq<byte>) {
    |body| < 0x1_0000_0000 && buf == Be32(|body|) + body + rest
  }

  lemma SplitRead(c: Wire, buf: seq<byte>, body: seq<byte>, rest: seq<byte>)
    requires Splits(buf, body, rest)
    ensures ReadFrame(c, buf) == Complete(Decode(c, body), rest)
  {
    Be32RoundTrip(|body|);
    assert FromBe32(buf) == FromBe32(Be32(|body|));
    assert buf[4..4 + |body|] == body && buf[4 + |body|..] == rest;
  }

  lemma ReadSplits(c: Wire, buf: seq<byte>)
    requires ReadFrame(c, buf).Complete?
    ensures var body := buf[4..FromBe32(buf) + 4];
      Splits(buf, body, ReadFrame(c, buf).rest) && ReadFrame(c, buf).msg == Decode(c, body)
  {
    var end := FromBe32(buf) + 4;
    FromBe32RoundTrip(buf);
    assert buf[..4] + buf[4..end] + buf[end..] == buf;
  }

  // A frame is read exactly when the buffer is a length, that many bytes, and the rest.
  lemma FrameExact(c: Wire, buf: seq<byte>, msg: Result<RpcMsg>, rest: seq<byte>)
    ensures ReadFrame(c, buf) == Complete(msg, rest) <==>
      exists body :: |body| < 0x1_0000_0000 && buf == Be32(|body|) + body + rest && msg == Decode(c, body)
  {
    if ReadFrame(c, buf) == Complete(msg, rest) {
      ReadSplits(c, buf);
    }
    forall body | Splits(buf, body, rest) && msg == Decode(c, body) ensures ReadFrame(c, buf) == Complete(msg, rest) {
      SplitRead(c, buf, body, rest);
    }
  }

  // More bytes never change a complete frame.
  lemma FrameStable(c: Wire, buf: seq<byte>, more: seq<byte>)
    requires ReadFrame(c, buf).Complete?
    ensures ReadFrame(c, buf + more) == Complete(ReadFrame(c, buf).msg, ReadFrame(c, buf).rest + more)
    ensures |ReadFrame(c, buf).rest| + 4 <= |buf|
  {
    var end := FromBe32(buf) + 4;
    assert FromBe32(buf + more) == FromBe32(buf);
    assert (buf + more)[4..end] == buf[4..end];
    assert (buf + more)[end..] == buf[end..] + more;
  }

  // A written frame reads back exactly when the encoding is below 2^32 bytes; otherwise the
  // wrapped length cuts the encoding short and the reader reports an undecodable frame.
  lemma WriteReadExact(c: Wire, msg: RpcMsg, rest: seq<byte>)
    requires Lawful(c) && Encode(c, msg).Ok?
    ensures ReadFrame(c, FrameOf(c, msg) + rest) == Complete(Ok(msg), rest) <==> Small(c, msg)
    ensures !Small(c, msg) ==>
      ReadFrame(c, FrameOf(c, msg) + rest).Complete? && ReadFrame(c, FrameOf(c, msg) + rest).msg == Err
  {
    var e := Encode(c, msg).value;
    var n := Truncate32(|e|);
    assert FrameOf(c, msg) + rest == Be32(|e[..n]|) + e[..n] + (e[n..] + rest);
    SplitRead(c, FrameOf(c, msg) + rest, e[..n], e[n..] + rest);
    if Small(c, msg) {
      assert e[..n] == e && e[n..] + rest == rest;
      DecodeExact(c, e, msg);
    } else {
      CutEncodingRejected(c, msg, n);
    }
  }

  //---------------------------------------------------------------------------
  // A whole buffer
  //---------------------------------------------------------------------------

  datatype Drained = Drained(msgs: seq<RpcMsg>, rest: seq<byte>, failed: bool)

  // The messages in a buffer up to the first undecodable frame, and the unread bytes.
  function Drain(c: Wire, buf: seq<byte>): Drained
    decreases |buf|
  {
    match ReadFrame(c, buf)
    case Incomplete => Drained([], buf, false)
    case Complete(Err, rest) => Drained([], rest, true)
    case Complete(Ok(msg), rest) =>
      var d := Drain(c, rest);
      Drained([msg] + d.msgs, d.rest, d.failed)
  }

  // Draining in two parts is draining at once.
  lemma {:induction false} DrainSplit(c: Wire, a: seq<byte>, b: seq<byte>)
    ensures Drain(c, a + b) ==
      if Drain(c, a).failed then Drain(c, a).(rest := Drain(c, a).rest + b)
      else Then(Drain(c, a).msgs, Drain(c, Drain(c, a).rest + b))
    decreases |a|
  {
    if ReadFrame(c, a).Complete? {
      FrameStable(c, a, b);
      if ReadFrame(c, a).msg.Ok? {
        var m, rest := ReadFrame(c, a).msg.value, ReadFrame(c, a).rest;
        DrainSplit(c, rest, b);
        var later := Drain(c, Drain(c, rest).rest + b).msgs;
        assert [m] + (Drain(c, rest).msgs + later) == [m] + Drain(c, rest).msgs + later;
      }
    } else {
      assert [] + Drain(c, a + b).msgs == Drain(c, a + b).msgs;
    }
  }

  function Then(msgs: seq<RpcMsg>, d: Drained): Drained {
    d.(msgs := msgs + d.msgs)
  }

  // What is left after a drain that did not fail holds no complete frame.
  lemma {:induction false} ResidueIncomplete(c: Wire, buf: seq<byte>)
    requires !Drain(c, buf).failed
    ensures ReadFrame(c, Drain(c, buf).rest) == Incomplete
    decreases |buf|
  {
    if ReadFrame(c, buf).Complete? {
      ResidueIncomplete(c, ReadFrame(c, buf).rest);
    }
  }

  //---------------------------------------------------------------------------
  // A stream in chunks
  //---------------------------------------------------------------------------

  function Flatten(chunks: seq<seq<byte>>): seq<byte> {
    if chunks == [] then [] else chunks[0] + Flatten(chunks[1..])
  }

  // The connection's buffering: append a chunk to the residue, drain, keep the new residue.
  function Feed(c: Wire, chunks: seq<seq<byte>>, residue: seq<byte>): Drained {
    if chunks == [] then Drained([], residue, false)
    else
      var d := Drain(c, residue + chunks[0]);
      if d.failed then d else Then(d.msgs, Feed(c, chunks[1..], d.rest))
  }

  // However the transport cuts the stream, the same messages come out, up to the first
  // undecodable frame, and without one the same residue is left.
  lemma {:induction false} ChunkingIrrelevant(c: Wire, chunks: seq<seq<byte>>, residue: seq<byte>)
    requires ReadFrame(c, residue) == Incomplete
    ensures var fed, whole := Feed(c, chunks, residue), Drain(c, residue + Flatten(chunks));
      && fed.msgs == whole.msgs
      && fed.failed == whole.failed
      && (!fed.failed ==> fed.rest == whole.rest)
    decreases |chunks|
  {
    if chunks == [] {
      assert residue + Flatten(chunks) == residue;
    } else {
      var head, tail := residue + chunks[0], Flatten(chunks[1..]);
      assert residue + Flatten(chunks) == head + tail;
      DrainSplit(c, head, tail);
      if !Drain(c, head).failed {
        ResidueIncomplete(c, head);
        ChunkingIrrelevant(c, chunks[1..], Drain(c, head).rest);
      }
    }
  }

  //---------------------------------------------------------------------------
  // Writing many messages
  //---------------------------------------------------------------------------

  predicate Encodable(c: Wire, msgs: seq<RpcMsg>) {
    forall i :: 0 <= i < |msgs| ==> Encode(c, msgs[i]).Ok?
  }

  function Frames(c: Wire, msgs: seq<RpcMsg>): seq<byte>
    requires Encodable(c, msgs)
  {
    if msgs == [] then [] else FrameOf(c, msgs[0]) + Frames(c, msgs[1..])
  }

  lemma {:induction false} FramesAppend(c: Wire, msgs: seq<RpcMsg>, msg: RpcMsg)
    requires Encodable(c, msgs) && Encode(c, msg).Ok?
    ensures Encodable(c, msgs + [msg])
    ensures Frames(c, msgs + [msg]) == Frames(c, msgs) + FrameOf(c, msg)
  {
    if msgs == [] {
      assert msgs + [msg] == [msg];
      assert Frames(c, [msg]) == FrameOf(c, msg) + [];
    } else {
      FramesAppend(c, msgs[1..], msg);
      assert (msgs + [msg])[1..] == msgs[1..] + [msg];
      assert FrameOf(c, msgs[0]) + (Frames(c, msgs[1..]) + FrameOf(c, msg)) == Frames(c, msgs) + FrameOf(c, msg);
    }
  }

  // How many messages precede the first oversize one.
  function SmallCount(c: Wire, msgs: seq<RpcMsg>): (n: nat)
    ensures n <= |msgs|
    ensures forall i :: 0 <= i < n ==> Small(c, msgs[i])
    ensures n < |msgs| ==> !Small(c, msgs[n])
  {
    if msgs == [] || !Small(c, msgs[0]) then 0 else 1 + SmallCount(c, msgs[1..])
  }

  // Frames, then bytes that hold no message: the messages before the first oversize one come out,
  // and reading fails there.
  lemma {:induction false} FramesThenNothing(c: Wire, msgs: seq<RpcMsg>, tail: seq<byte>)
    requires Lawful(c) && Encodable(c, msgs) && Drain(c, tail).msgs == []
    ensures var d := Drain(c, Frames(c, msgs) + tail);
      && d.msgs == msgs[..SmallCount(c, msgs)]
      && (SmallCount(c, msgs) < |msgs| ==> d.failed)
      && (SmallCount(c, msgs) == |msgs| ==> d.rest == Drain(c, tail).rest && d.failed == Drain(c, tail).failed)
  {
    if msgs == [] {
      assert Frames(c, msgs) + tail == tail;
    } else {
      var more := Frames(c, msgs[1..]) + tail;
      Associative(FrameOf(c, msgs[0]), Frames(c, msgs[1..]), tail);
      WriteReadExact(c, msgs[0], more);
      if Small(c, msgs[0]) {
        FramesThenNothing(c, msgs[1..], tail);
        PrefixCons(msgs, SmallCount(c, msgs[1..]));
      }
    }
  }

  // Reading back a written list returns the messages before the first oversize one, and fails
  // there. With none oversize, exactly the list comes back and a trailing partial frame is kept.
  lemma ReadBack(c: Wire, msgs: seq<RpcMsg>, tail: seq<byte>)
    requires Lawful(c) && Encodable(c, msgs) && ReadFrame(c, tail) == Incomplete
    ensures var d := Drain(c, Frames(c, msgs) + tail);
      && d.msgs == msgs[..SmallCount(c, msgs)]
      && d.failed == (SmallCount(c, msgs) < |msgs|)
      && (SmallCount(c, msgs) == |msgs| ==> d.rest == tail)
  {
    FramesThenNothing(c, msgs, tail);
  }

  // A proper prefix of the frame of a small message holds no complete frame.
  lemma CutFrameIncomplete(c: Wire, msg: RpcMsg, n: nat)
    requires Small(c, msg) && n < |FrameOf(c, msg)|
    ensures ReadFrame(c, FrameOf(c, msg)[..n]) == Incomplete
  {
    var cut := FrameOf(c, msg)[..n];
    if n >= 4 {
      Be32RoundTrip(|Encode(c, msg).value|);
      assert FromBe32(cut) == FromBe32(Be32(|Encode(c, msg).value|));
    }
  }

  //---------------------------------------------------------------------------
  // The buffer
  //---------------------------------------------------------------------------

  // A growable byte buffer, read from the front.
  class BytesMut {
    var bytes: seq<byte>

    constructor ()
      ensures bytes == []
    {
      bytes := [];
    }

    method PutSlice(s: seq<byte>)
      modifies this
      ensures bytes == old(bytes) + s
    {
      bytes := bytes + s;
    }

    method Advance(n: nat)
      requires n <= |bytes|
      modifies this
      ensures bytes == old(bytes)[n..]
    {
      bytes := bytes[n..];
    }

    method SplitTo(n: nat) returns (front: seq<byte>)
      requires n <= |bytes|
      modifies this
      ensures front == old(bytes)[..n] && bytes == old(bytes)[n..]
    {
      front := bytes[..n];
      bytes := bytes[n..];
    }
  }

  // `read_rpc_message`: None leaves the buffer alone; otherwise one frame is consumed, even an
  // undecodable one.
  method ReadRpcMessage(c: Wire, buf: BytesMut) returns (r: Option<Result<RpcMsg>>)
    modifies buf
    ensures ReadFrame(c, old(buf.bytes)) == (if r.None? then Incomplete else Complete(r.value, buf.bytes))
    ensures r.None? ==> buf.bytes == old(buf.bytes)
    ensures r.Some? ==> |buf.bytes| + 4 <= |old(buf.bytes)|
  {
    if |buf.bytes| < 4 {
      return None;
    }
    ghost var was := buf.bytes;
    var size: nat := FromBe32(buf.bytes);
    if |buf.bytes| < size + 4 {
      return None;
    }
    buf.Advance(4);
    var msgBuf := buf.SplitTo(size);
    assert msgBuf == was[4..size + 4] && buf.bytes == was[size + 4..];
    return Some(Decode(c, msgBuf));
  }

  // `write_rpc_message`: a message that cannot be encoded leaves the buffer alone.
  method WriteRpcMessage(c: Wire, msg: RpcMsg, buf: BytesMut) returns (r: Result<()>)
    modifies buf
    ensures r.Ok? <==> Encode(c, msg).Ok?
    ensures buf.bytes == old(buf.bytes) + (if Encode(c, msg).Ok? then FrameOf(c, msg) else [])
    ensures r.Ok? ==>
      var e := Encode(c, msg).value;
      buf.bytes == old(buf.bytes) + Be32(|e| % 0x1_0000_0000) + e
  {
    var encoded := Encode(c, msg);
    if encoded.Err? {
      return Err;
    }
    var len := Be32(Truncate32(|encoded.value|));
    buf.PutSlice(len);
    buf.PutSlice(encoded.value);
    return Ok(());
  }
}
