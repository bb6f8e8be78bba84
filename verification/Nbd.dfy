/** The NBD transmission phase (nbd/nbd.go): a stream of 28-byte requests answered one by one. */
module Nbd {
  import opened Bytes
  import opened Codec
  import opened Segments
  import opened Sections
  import opened SectorRead
  import opened Planner
  import opened Image
  import opened Media

  const REQUEST_MAGIC: nat := 0x2560_9513
  const REPLY_MAGIC: nat := 0x6744_6698
  const REQUEST_LENGTH: nat := 28
  const REPLY_LENGTH: nat := 16
  const MAX_READ_LENGTH: nat := 0x200_0000   // 32 MiB
  const MAX_INT64: nat := 0x7FFF_FFFF_FFFF_FFFF

  const CMD_READ: nat := 0
  const CMD_WRITE: nat := 1
  const CMD_DISC: nat := 2
  const CMD_FLUSH: nat := 3
  const CMD_TRIM: nat := 4
  const CMD_WRITE_ZEROES: nat := 6

  const EPERM: nat := 1
  const EIO: nat := 5
  const EINVAL: nat := 22

  // ------------------------------------------------------------ frames

  datatype Request = Request(flags: nat, typ: nat, handle: bytes, offset: nat, length: nat)

  ghost predicate Representable(q: Request) {
    q.flags < 0x1_0000 && q.typ < 0x1_0000 && |q.handle| == 8 && q.offset < 0x1_0000_0000_0000_0000
        && q.length < 0x1_0000_0000
  }

  function EncodeRequest(q: Request): (r: bytes)
    requires |q.handle| == 8
    ensures |r| == REQUEST_LENGTH
  {
    ToBE(REQUEST_MAGIC, 4) + ToBE(q.flags, 2) + ToBE(q.typ, 2) + q.handle + ToBE(q.offset, 8) + ToBE(q.length, 4)
  }

  /** The request in a frame, or None for a bad magic. */
  function DecodeRequest(b: bytes): (r: Option<Request>)
    requires |b| == REQUEST_LENGTH
    ensures r.Some? ==> |r.value.handle| == 8
  {
    if BE(b[..4]) != REQUEST_MAGIC then None
    else Some(Request(BE(b[4..6]), BE(b[6..8]), b[8..16], BE(b[16..24]), BE(b[24..28])))
  }

  lemma Widths()
    ensures Pow256(2) == 0x1_0000 && Pow256(4) == 0x1_0000_0000 && Pow256(8) == 0x1_0000_0000_0000_0000
  {
    assert Pow256(4) == 0x1_0000_0000;
  }

  lemma RequestRoundTrip(q: Request)
    requires Representable(q)
    ensures DecodeRequest(EncodeRequest(q)) == Some(q)
  {
    hide BE, ToBE;
    var b := EncodeRequest(q);
    Widths();
    ToBERoundTrip(REQUEST_MAGIC, 4);
    ToBERoundTrip(q.flags, 2);
    ToBERoundTrip(q.typ, 2);
    ToBERoundTrip(q.offset, 8);
    ToBERoundTrip(q.length, 4);
    assert b[..4] == ToBE(REQUEST_MAGIC, 4) && b[4..6] == ToBE(q.flags, 2) && b[6..8] == ToBE(q.typ, 2);
    assert b[8..16] == q.handle && b[16..24] == ToBE(q.offset, 8) && b[24..28] == ToBE(q.length, 4);
  }

  datatype Reply = Reply(error: nat, handle: bytes, payload: bytes)

  function EncodeReply(r: Reply): (b: bytes)
    ensures |b| == 8 + |r.handle| + |r.payload|
  {
    ToBE(REPLY_MAGIC, 4) + ToBE(r.error, 4) + r.handle + r.payload
  }

  function EncodeReplies(rs: seq<Reply>): bytes {
    if rs == [] then [] else EncodeReply(rs[0]) + EncodeReplies(rs[1..])
  }

  lemma {:induction false} RepliesAppend(rs: seq<Reply>, r: Reply)
    ensures EncodeReplies(rs + [r]) == EncodeReplies(rs) + EncodeReply(r)
  {
    hide EncodeReply;
    if rs == [] {
      assert [] + [r] == [r] && [r][1..] == [];
      assert EncodeReply(r) + [] == EncodeReply(r);
    } else {
      assert (rs + [r])[1..] == rs[1..] + [r];
      RepliesAppend(rs[1..], r);
      AppendAssoc(EncodeReply(rs[0]), EncodeReplies(rs[1..]), EncodeReply(r));
    }
  }

  // ------------------------------------------------------------ what is served

  /** A block source: its size, and what a full read of a range gives (None for any failure or short read). */
  datatype Export = Export(size: nat, read: (nat, nat) -> Option<bytes>)

  /** A full read gives as many bytes as were asked for. */
  ghost predicate Exact(x: Export) {
    forall off: nat, n: nat :: x.read(off, n).Some? ==> |x.read(off, n).value| == n
  }

  /** Whether a request asks for bytes the server may serve. */
  predicate Serveable(size: nat, q: Request) {
    q.typ == CMD_READ && q.offset + q.length <= size && q.length <= MAX_READ_LENGTH
        && (q.length > 0 ==> q.offset <= MAX_INT64)
  }

  /**
   * The answer each request is owed: data only for a read inside the export, a refusal for anything
   * that writes, success for a flush, and "invalid" for all else.
   */
  function Answer(x: Export, q: Request): Reply {
    if q.typ == CMD_READ then
      if !Serveable(x.size, q) then Reply(EINVAL, q.handle, [])
      else if q.length == 0 then Reply(0, q.handle, [])
      else match x.read(q.offset, q.length)
           case None => Reply(EIO, q.handle, [])
           case Some(data) => Reply(0, q.handle, data)
    else if q.typ == CMD_WRITE || q.typ == CMD_TRIM || q.typ == CMD_WRITE_ZEROES then Reply(EPERM, q.handle, [])
    else if q.typ == CMD_FLUSH then Reply(0, q.handle, [])
    else Reply(EINVAL, q.handle, [])
  }

  /** How a session ends. */
  datatype Ending = Disconnected | ClosedByClient | CutShort | BadMagic

  /** The requests answered before the session ends, and why it ends. */
  datatype Session = Session(requests: seq<Request>, ending: Ending)

  function Frame(input: bytes, i: nat): (f: bytes)
    requires REQUEST_LENGTH * (i + 1) <= |input|
    ensures |f| == REQUEST_LENGTH
  {
    input[REQUEST_LENGTH * i..REQUEST_LENGTH * (i + 1)]
  }

  /** s is the session of this input: as many whole, valid frames as there are before the first that ends it. */
  ghost predicate IsSession(input: bytes, s: Session) {
    var k := |s.requests|;
    && REQUEST_LENGTH * k <= |input|
    && (forall i :: 0 <= i < k ==>
          && DecodeRequest(Frame(input, i)) == Some(s.requests[i])
          && s.requests[i].typ != CMD_DISC)
    && match s.ending
       case ClosedByClient => |input| == REQUEST_LENGTH * k
       case CutShort => REQUEST_LENGTH * k < |input| < REQUEST_LENGTH * (k + 1)
       case BadMagic => REQUEST_LENGTH * (k + 1) <= |input| && DecodeRequest(Frame(input, k)) == None
       case Disconnected => REQUEST_LENGTH * (k + 1) <= |input|
                            && DecodeRequest(Frame(input, k)).Some?
                               && DecodeRequest(Frame(input, k)).value.typ == CMD_DISC
  }

  /** The session of an input, frame by frame. */
  function SessionOf(input: bytes): Session
    decreases |input|
  {
    if input == [] then Session([], ClosedByClient)
    else if |input| < REQUEST_LENGTH then Session([], CutShort)
    else
      match DecodeRequest(input[..REQUEST_LENGTH])
      case None => Session([], BadMagic)
      case Some(q) =>
        if q.typ == CMD_DISC then Session([], Disconnected)
        else var s := SessionOf(input[REQUEST_LENGTH..]); Session([q] + s.requests, s.ending)
  }

  /** Every input stream has a session. */
  lemma {:induction false} SessionExists(input: bytes)
    ensures IsSession(input, SessionOf(input))
    decreases |input|
  {
    hide DecodeRequest;
    if |input| >= REQUEST_LENGTH {
      assert Frame(input, 0) == input[..REQUEST_LENGTH];
      var q := DecodeRequest(input[..REQUEST_LENGTH]);
      if q.Some? && q.value.typ != CMD_DISC {
        var rest := input[REQUEST_LENGTH..];
        SessionExists(rest);
        SessionOneMore(input, q.value, SessionOf(rest));
      }
    }
  }

  lemma SessionOneMore(input: bytes, q: Request, s: Session)
    requires |input| >= REQUEST_LENGTH && DecodeRequest(Frame(input, 0)) == Some(q) && q.typ != CMD_DISC
    requires IsSession(input[REQUEST_LENGTH..], s)
    ensures IsSession(input, Session([q] + s.requests, s.ending))
  {
    hide DecodeRequest;
    var rest, k := input[REQUEST_LENGTH..], |s.requests|;
    forall i | 0 <= i && REQUEST_LENGTH * (i + 1) <= |rest| ensures Frame(input, i + 1) == Frame(rest, i) {
      SliceSlice(input, REQUEST_LENGTH, |input|, REQUEST_LENGTH * i, REQUEST_LENGTH * (i + 1));
    }
    forall i | 0 <= i < k + 1
      ensures DecodeRequest(Frame(input, i)) == Some(([q] + s.requests)[i]) && ([q] + s.requests)[i].typ != CMD_DISC
    {
      if i > 0 { assert Frame(input, i - 1 + 1) == Frame(rest, i - 1); }
    }
    if REQUEST_LENGTH * (k + 1) <= |rest| { assert Frame(input, k + 1) == Frame(rest, k); }
  }

  /** Every input stream has exactly one session. */
  lemma SessionIs(input: bytes, s: Session)
    ensures IsSession(input, s) <==> s == SessionOf(input)
  {
    hide IsSession;
    SessionExists(input);
    if IsSession(input, s) { SessionUnique(input, s, SessionOf(input)); }
  }

  lemma SessionUnique(input: bytes, s: Session, t: Session)
    requires IsSession(input, s) && IsSession(input, t)
    ensures s == t
  {
    hide DecodeRequest, Frame;
    assert |s.requests| == |t.requests|;
    forall i | 0 <= i < |s.requests| ensures s.requests[i] == t.requests[i] {
      assert DecodeRequest(Frame(input, i)) == Some(s.requests[i]);
    }
  }

  function Answers(x: Export, qs: seq<Request>): (rs: seq<Reply>)
    ensures |rs| == |qs|
  {
    seq(|qs|, i requires 0 <= i < |qs| => Answer(x, qs[i]))
  }

  // ------------------------------------------------------------ the client's side

  /** What a client that knows its requests reads from the stream, and what is left of it. */
  function ClientReads(qs: seq<Request>, stream: bytes): Option<(seq<Reply>, bytes)> {
    if qs == [] then Some(([], stream))
    else if |stream| < REPLY_LENGTH || BE(stream[..4]) != REPLY_MAGIC then None
    else
      var error := BE(stream[4..8]);
      var n := if error == 0 && qs[0].typ == CMD_READ then qs[0].length else 0;
      if |stream| < REPLY_LENGTH + n then None
      else
        match ClientReads(qs[1..], stream[REPLY_LENGTH + n..])
        case None => None
        case Some((rs, rest)) => Some(([Reply(error, stream[8..16], stream[16..16 + n])] + rs, rest))
  }

  lemma ReplyFields(r: Reply, rest: bytes)
    requires |r.handle| == 8 && r.error < 0x1_0000_0000
    ensures var stream := EncodeReply(r) + rest;
            && BE(stream[..4]) == REPLY_MAGIC && BE(stream[4..8]) == r.error && stream[8..16] == r.handle
            && stream[16..16 + |r.payload|] == r.payload && stream[16 + |r.payload|..] == rest
  {
    hide BE, ToBE;
    var stream := EncodeReply(r) + rest;
    Widths();
    ToBERoundTrip(REPLY_MAGIC, 4);
    ToBERoundTrip(r.error, 4);
    assert stream[..4] == ToBE(REPLY_MAGIC, 4) && stream[4..8] == ToBE(r.error, 4);
  }

  lemma AnswerShape(x: Export, q: Request)
    requires Exact(x) && |q.handle| == 8
    ensures var r := Answer(x, q);
            && r.handle == q.handle && r.error < 0x1_0000_0000
            && |r.payload| == if r.error == 0 && q.typ == CMD_READ then q.length else 0
  {
  }

  /** A client recovers every answer, in order and with its own handle, from the bytes the server wrote. */
  lemma {:induction false} ClientRecoversAnswers(x: Export, qs: seq<Request>, rest: bytes)
    requires Exact(x) && forall i :: 0 <= i < |qs| ==> |qs[i].handle| == 8
    ensures ClientReads(qs, EncodeReplies(Answers(x, qs)) + rest) == Some((Answers(x, qs), rest))
  {
    hide EncodeReply, Answer, BE;
    var all := Answers(x, qs);
    if qs == [] {
      assert [] + rest == rest;
    } else {
      assert all[1..] == Answers(x, qs[1..]);
      var tail := EncodeReplies(all[1..]) + rest;
      AppendAssoc(EncodeReply(all[0]), EncodeReplies(all[1..]), rest);
      AnswerShape(x, qs[0]);
      ReplyFields(all[0], tail);
      ClientRecoversAnswers(x, qs[1..], rest);
      assert [all[0]] + all[1..] == all;
    }
  }

  /** A whole exchange: what a client sends, ended by a disconnect, is the session the server sees. */
  lemma {:induction false} SentIsReceived(qs: seq<Request>, bye: Request)
    requires forall i :: 0 <= i < |qs| ==> |qs[i].handle| == 8 && Representable(qs[i]) && qs[i].typ != CMD_DISC
    requires Representable(bye) && bye.typ == CMD_DISC
    ensures IsSession(Sent(qs) + EncodeRequest(bye), Session(qs, Disconnected))
  {
    hide DecodeRequest, EncodeRequest;
    var input := Sent(qs) + EncodeRequest(bye);
    SentLength(qs);
    forall i | 0 <= i < |qs| ensures DecodeRequest(Frame(input, i)) == Some(qs[i]) {
      SentFrame(qs, EncodeRequest(bye), i);
      RequestRoundTrip(qs[i]);
    }
    assert Frame(input, |qs|) == EncodeRequest(bye);
    RequestRoundTrip(bye);
  }

  function Sent(qs: seq<Request>): bytes
    requires forall i :: 0 <= i < |qs| ==> |qs[i].handle| == 8
  {
    if qs == [] then [] else EncodeRequest(qs[0]) + Sent(qs[1..])
  }

  lemma {:induction false} SentLength(qs: seq<Request>)
    requires forall i :: 0 <= i < |qs| ==> |qs[i].handle| == 8
    ensures |Sent(qs)| == REQUEST_LENGTH * |qs|
  {
    if qs != [] { SentLength(qs[1..]); }
  }

  lemma {:induction false} SentFrame(qs: seq<Request>, rest: bytes, i: nat)
    requires (forall i :: 0 <= i < |qs| ==> |qs[i].handle| == 8) && i < |qs|
    ensures REQUEST_LENGTH * (i + 1) <= |Sent(qs) + rest| && Frame(Sent(qs) + rest, i) == EncodeRequest(qs[i])
  {
    hide EncodeRequest;
    SentLength(qs);
    var all, tail := Sent(qs) + rest, Sent(qs[1..]) + rest;
    assert all == EncodeRequest(qs[0]) + tail;
    if i > 0 {
      SentFrame(qs[1..], rest, i - 1);
      assert Frame(all, i) == Frame(tail, i - 1);
    }
  }

  // ------------------------------------------------------------ the server over an image

  /** The image as a block source: the media bytes of every range inside it that can be read. */
  function ImageExport(c: Codec, segs: seq<Segment>, disks: seq<DiskSMART>, tables: seq<ChunkTable>): Export {
    Export(ExportSize(disks), (off: nat, n: nat) => MediaRange(c, segs, disks, tables, off, n))
  }

  function MediaRange(c: Codec, segs: seq<Segment>, disks: seq<DiskSMART>, tables: seq<ChunkTable>, off: nat,
                      n: nat): (r: Option<bytes>)
    ensures r.Some? ==> |r.value| == n
  {
    var l := LayoutOf(disks, tables);
    if n == 0 || off + n > ExportSize(disks) then None
    else
      var cover := Cover(l.ss, off, n);
      match ReadSectors(c, segs, disks, tables, cover.0, cover.1)
      case Err(_) => None
      case Ok(_) => Some(MediaBytes(l.ChunkBytes(), DecodedChunks(c, segs, tables, l), off, n))
  }

  lemma ImageExportExact(c: Codec, segs: seq<Segment>, disks: seq<DiskSMART>, tables: seq<ChunkTable>)
    ensures Exact(ImageExport(c, segs, disks, tables))
  {
  }

  /** A full read of an in-range stretch is exactly what the export gives. */
  lemma FullRead(c: Codec, segs: seq<Segment>, disks: seq<DiskSMART>, tables: seq<ChunkTable>, p: bytes, off: nat,
                 n: nat, err: Option<ExportError>, after: bytes)
    requires p != [] && off + |p| <= ExportSize(disks)
    requires ExportReads(c, segs, disks, tables, p, off, n, err, after)
    ensures (if n == |p| && err == None then Some(after) else None) == MediaRange(c, segs, disks, tables, off, |p|)
  {
    hide LayoutOf, ReadSectors, DecodedChunks, MediaBytes, ExportSize, Cover;
    var m := MediaBytes(LayoutOf(disks, tables).ChunkBytes(), DecodedChunks(c, segs, tables, LayoutOf(disks, tables)),
                        off, |p|);
    assert m + p[|p|..] == m;
  }

  class Server {
    const img: EWFImage
    var unread: bytes   // what the client has sent and the server has not read
    var written: bytes  // what the server has sent

    constructor (img: EWFImage, input: bytes)
      ensures this.img == img && unread == input && written == []
    {
      this.img := img;
      unread, written := input, [];
    }

    /** The export this server serves. */
    ghost function Source(): Export
      reads this, img
    {
      ImageExport(img.codec, img.segments, img.disks, img.sectors)
    }

    ghost predicate Ready()
      reads this, img, img.chunkCache, img.CacheRepr()
    {
      img.Ready(img.AllDecoded()) && this !in img.CacheRepr()
    }

    /** A read request: everything asked for, or an error without data. */
    method ServeRead(q: Request, gomaxprocs: int) returns (r: Reply)
      requires Ready() && q.typ == CMD_READ
      modifies img.CacheRepr()
      ensures Ready() && (forall o :: o in img.CacheRepr() ==> o in old(img.CacheRepr()) || fresh(o))
      ensures r == Answer(Source(), q)
    {
      hide EWFImage.Ready, EWFImage.AllDecoded, ExportReads, MediaRange;
      var size := ExportSize(img.disks);
      if q.offset > size || q.length > size - q.offset { return Reply(EINVAL, q.handle, []); }
      if q.length == 0 { return Reply(0, q.handle, []); }
      if q.length > MAX_READ_LENGTH || q.offset > MAX_INT64 { return Reply(EINVAL, q.handle, []); }
      var data := new byte[q.length](_ => 0);
      ghost var blank := data[..];
      img.ReadyOwns(img.AllDecoded());
      var n, err := ExportReadAt(img, data, q.offset, gomaxprocs);
      FullRead(img.codec, img.segments, img.disks, img.sectors, blank, q.offset, n, err, data[..]);
      if n != q.length || err != None { return Reply(EIO, q.handle, []); }
      return Reply(0, q.handle, data[..]);
    }

    /** The answer to one request. */
    method Serve(q: Request, gomaxprocs: int) returns (r: Reply)
      requires Ready()
      modifies img.CacheRepr()
      ensures Ready() && (forall o :: o in img.CacheRepr() ==> o in old(img.CacheRepr()) || fresh(o))
      ensures r == Answer(Source(), q)
    {
      hide EWFImage.Ready, EWFImage.AllDecoded, ImageExport;
      if q.typ == CMD_READ { r := ServeRead(q, gomaxprocs); }
      else if q.typ == CMD_WRITE || q.typ == CMD_TRIM || q.typ == CMD_WRITE_ZEROES { r := Reply(EPERM, q.handle, []); }
      else if q.typ == CMD_FLUSH { r := Reply(0, q.handle, []); }
      else { r := Reply(EINVAL, q.handle, []); }
    }

    /**
     * The request/reply loop: for every input stream, one reply per whole valid frame before the
     * first disconnect, bad magic or end of input, in order, and nothing else.
     */
    method Transmission(gomaxprocs: int) returns (ending: Ending, ghost requests: seq<Request>)
      requires Ready()
      modifies this, img.CacheRepr()
      ensures Ready()
      ensures IsSession(old(unread), Session(requests, ending))
      ensures written == old(written) + EncodeReplies(Answers(old(Source()), requests))
    {
      hide EWFImage.Ready, EWFImage.AllDecoded, Answer, EncodeReply, EncodeReplies, DecodeRequest, ImageExport,
           IsSession;
      ghost var input, x := unread, Source();
      requests := [];
      ProgressStart(x, input, written);
      img.ReadyOwns(img.AllDecoded());
      while true
        invariant Ready() && (forall o :: o in img.CacheRepr() ==> o in old(img.CacheRepr()) || fresh(o))
                  && Source() == x
        invariant SoFar(x, input, requests, unread, old(written), written)
        decreases |unread|
      {
        if |unread| < REQUEST_LENGTH {
          ending := if |unread| == 0 then ClosedByClient else CutShort;
          SessionEnds(x, input, requests, unread, old(written), written, ending);
          return;
        }
        var frame := unread[..REQUEST_LENGTH];
        var q := DecodeRequest(frame);
        if q.None? || q.value.typ == CMD_DISC {
          ending := if q.None? then BadMagic else Disconnected;
          SessionEnds(x, input, requests, unread, old(written), written, ending);
          return;
        }
        img.ReadyOwns(img.AllDecoded());
        var r := Serve(q.value, gomaxprocs);
        SessionGoes(x, input, requests, unread, old(written), written, q.value);
        requests := requests + [q.value];
        unread := unread[REQUEST_LENGTH..];
        written := written + EncodeReply(r);
      }
    }
  }

  /** The frames read so far were whole, valid and answered in order. */
  ghost predicate SoFar(x: Export, input: bytes, qs: seq<Request>, unread: bytes, before: bytes, written: bytes) {
    && REQUEST_LENGTH * |qs| <= |input| && unread == input[REQUEST_LENGTH * |qs|..]
    && (forall i :: 0 <= i < |qs| ==> DecodeRequest(Frame(input, i)) == Some(qs[i]) && qs[i].typ != CMD_DISC)
    && written == before + EncodeReplies(Answers(x, qs))
  }

  lemma ProgressStart(x: Export, input: bytes, written: bytes)
    ensures SoFar(x, input, [], input, written, written)
  {
    assert written + [] == written;
  }

  lemma SessionGoes(x: Export, input: bytes, qs: seq<Request>, unread: bytes, before: bytes, written: bytes, q: Request)
    requires SoFar(x, input, qs, unread, before, written) && |unread| >= REQUEST_LENGTH
    requires DecodeRequest(unread[..REQUEST_LENGTH]) == Some(q) && q.typ != CMD_DISC
    ensures SoFar(x, input, qs + [q], unread[REQUEST_LENGTH..], before, written + EncodeReply(Answer(x, q)))
  {
    hide DecodeRequest, EncodeReply, Answer, EncodeReplies;
    assert Frame(input, |qs|) == unread[..REQUEST_LENGTH];
    assert Answers(x, qs + [q]) == Answers(x, qs) + [Answer(x, q)];
    RepliesAppend(Answers(x, qs), Answer(x, q));
    AppendAssoc(before, EncodeReplies(Answers(x, qs)), EncodeReply(Answer(x, q)));
  }

  lemma SessionEnds(x: Export, input: bytes, qs: seq<Request>, unread: bytes, before: bytes, written: bytes,
                    ending: Ending)
    requires SoFar(x, input, qs, unread, before, written)
    requires match ending
             case ClosedByClient => |unread| == 0
             case CutShort => 0 < |unread| < REQUEST_LENGTH
             case BadMagic => |unread| >= REQUEST_LENGTH && DecodeRequest(unread[..REQUEST_LENGTH]) == None
             case Disconnected => |unread| >= REQUEST_LENGTH && DecodeRequest(unread[..REQUEST_LENGTH]).Some?
                                  && DecodeRequest(unread[..REQUEST_LENGTH]).value.typ == CMD_DISC
    ensures IsSession(input, Session(qs, ending))
  {
    hide DecodeRequest;
    if |unread| >= REQUEST_LENGTH { assert Frame(input, |qs|) == unread[..REQUEST_LENGTH]; }
  }
}
