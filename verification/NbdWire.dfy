/** NBD frames byte for byte (nbd/nbd.go): the magics, the commands and the error numbers on the wire. */
module NbdWire {
  import opened Bytes
  import opened Nbd

  /** A request with no flags: magic, command, handle, offset and length. */
  function RequestBytes(cmd: byte, handle: bytes, offset: nat, length: nat): bytes {
    [0x25, 0x60, 0x95, 0x13, 0, 0, 0, cmd] + handle + ToBE(offset, 8) + ToBE(length, 4)
  }

  /** A reply: magic, error, handle and data. */
  function ReplyBytes(error: byte, handle: bytes, data: bytes): bytes {
    [0x67, 0x44, 0x66, 0x98, 0, 0, 0, error] + handle + data
  }

  /**
   * What a request is answered with: command 0 reads up to 32 MiB inside the export, 1, 4 and 6 would write and
   * are refused with error 1, 3 flushes; error 5 is a failed read, error 22 anything else.
   */
  function WireAnswer(x: Export, cmd: byte, handle: bytes, offset: nat, length: nat): bytes {
    if cmd == 0 then
      if offset + length > x.size || length > 0x200_0000 then ReplyBytes(22, handle, [])
      else if length == 0 then ReplyBytes(0, handle, [])
      else if offset > 0x7FFF_FFFF_FFFF_FFFF then ReplyBytes(22, handle, [])
      else match x.read(offset, length)
           case None => ReplyBytes(5, handle, [])
           case Some(data) => ReplyBytes(0, handle, data)
    else if cmd == 1 || cmd == 4 || cmd == 6 then ReplyBytes(1, handle, [])
    else if cmd == 3 then ReplyBytes(0, handle, [])
    else ReplyBytes(22, handle, [])
  }

  lemma MagicBytes()
    ensures ToBE(REQUEST_MAGIC, 4) == [0x25, 0x60, 0x95, 0x13] && ToBE(REPLY_MAGIC, 4) == [0x67, 0x44, 0x66, 0x98]
  {
    FourBytes(0x25, 0x60, 0x95, 0x13);
    FourBytes(0x67, 0x44, 0x66, 0x98);
  }

  lemma FourBytes(a: byte, b: byte, c: byte, d: byte)
    ensures ToBE(((a as int * 256 + b) * 256 + c) * 256 + d, 4) == [a, b, c, d]
  {
    var x: nat, y: nat := a as int * 256 + b, (a as int * 256 + b) * 256 + c;
    assert ToBE(a, 1) == ToBE(0, 0) + [a];
    assert ToBE(x, 2) == ToBE(a, 1) + [b];
    assert ToBE(y, 3) == ToBE(x, 2) + [c];
  }

  lemma SmallBytes(v: byte)
    ensures ToBE(v, 2) == [0, v] && ToBE(v, 4) == [0, 0, 0, v]
  {
    assert ToBE(0, 2) == ToBE(0, 1) + [0] && ToBE(0, 1) == [0];
    assert ToBE(v, 2) == ToBE(0, 1) + [v];
    FourBytes(0, 0, 0, v);
  }

  /** A frame on the wire is a request. */
  lemma FrameRead(cmd: byte, handle: bytes, offset: nat, length: nat)
    requires |handle| == 8 && offset < 0x1_0000_0000_0000_0000 && length < 0x1_0000_0000
    ensures |RequestBytes(cmd, handle, offset, length)| == REQUEST_LENGTH
    ensures DecodeRequest(RequestBytes(cmd, handle, offset, length)) == Some(Request(0, cmd, handle, offset, length))
  {
    hide BE, ToBE;
    var q := Request(0, cmd, handle, offset, length);
    MagicBytes();
    SmallBytes(0);
    SmallBytes(cmd);
    assert EncodeRequest(q) == RequestBytes(cmd, handle, offset, length);
    RequestRoundTrip(q);
  }

  lemma ReplyWritten(error: byte, handle: bytes, data: bytes)
    ensures EncodeReply(Reply(error, handle, data)) == ReplyBytes(error, handle, data)
  {
    hide ToBE;
    MagicBytes();
    SmallBytes(error);
  }

  /**
   * The first frame of a stream: command 2 ends the session without an answer, and any other one is answered with
   * the reply it is owed, byte for byte, in front of the answers to the rest.
   */
  lemma FrameAnswered(x: Export, cmd: byte, handle: bytes, offset: nat, length: nat, rest: bytes)
    requires |handle| == 8 && offset < 0x1_0000_0000_0000_0000 && length < 0x1_0000_0000
    ensures var s, t := SessionOf(RequestBytes(cmd, handle, offset, length) + rest), SessionOf(rest);
            if cmd == 2 then s == Session([], Disconnected)
            else
              && s.ending == t.ending
              && EncodeReplies(Answers(x, s.requests)) ==
                 WireAnswer(x, cmd, handle, offset, length) + EncodeReplies(Answers(x, t.requests))
  {
    hide EncodeReply, ReplyBytes, DecodeRequest, RequestBytes;
    FrameRead(cmd, handle, offset, length);
    var frame, q := RequestBytes(cmd, handle, offset, length), Request(0, cmd, handle, offset, length);
    var input := frame + rest;
    assert input[..REQUEST_LENGTH] == frame && input[REQUEST_LENGTH..] == rest;
    if cmd != 2 {
      var qs := SessionOf(rest).requests;
      assert SessionOf(input).requests == [q] + qs;
      assert Answers(x, [q] + qs)[1..] == Answers(x, qs);
      AnswerWritten(x, q);
    }
  }

  lemma AnswerWritten(x: Export, q: Request)
    requires q.typ < 256
    ensures EncodeReply(Answer(x, q)) == WireAnswer(x, q.typ, q.handle, q.offset, q.length)
  {
    hide EncodeReply, ReplyBytes;
    var r := Answer(x, q);
    ReplyWritten(r.error, r.handle, r.payload);
  }

  /** Any other magic ends the session without an answer. */
  lemma OtherMagic(frame: bytes, rest: bytes)
    requires |frame| == REQUEST_LENGTH && frame[..4] != [0x25, 0x60, 0x95, 0x13]
    ensures SessionOf(frame + rest) == Session([], BadMagic)
  {
    hide BE, ToBE;
    MagicBytes();
    assert (frame + rest)[..REQUEST_LENGTH] == frame;
    if BE(frame[..4]) == REQUEST_MAGIC { BEInverse(frame[..4]); }
  }

  lemma {:induction false} BEInverse(b: bytes)
    ensures ToBE(BE(b), |b|) == b
  {
    if b != [] { BEInverse(b[..|b| - 1]); }
  }
}
