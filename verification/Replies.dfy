/**
 What a reply means, read off the bytes of its frame and the event that brought it: the outcome of every
 exchange, of every chunk of a read or write, and of a whole read, on success and on every kind of failure.
 */
module Replies {
  import opened Bytes
  import opened S7
  import opened PduReadWrite
  import opened Link
  import opened Exchange
  import opened ReadWrite
  import PB = PduBlocks
  import U = Upload

  // ---------------------------------------------------------------- a frame, byte by byte

  /** Message types 2 and 3 are acknowledgements, with two error bytes after the header. */
  predicate Acknowledges(f: seq<byte>) {
    |f| >= 2 && (f[1] == 2 || f[1] == 3)
  }

  function BodyAt(f: seq<byte>): nat {
    if Acknowledges(f) then 12 else 10
  }

  /** The frame is long enough for its header and both of its sections. */
  predicate Whole(f: seq<byte>) {
    |f| >= 10 && f[0] == 0x32 && |f| >= BodyAt(f) && |f| >= BodyAt(f) + GetU16(f, 6) + GetU16(f, 8)
  }

  function ParamOf(f: seq<byte>): seq<byte>
    requires Whole(f)
  {
    f[BodyAt(f)..BodyAt(f) + GetU16(f, 6)]
  }

  function DataOf(f: seq<byte>): seq<byte>
    requires Whole(f)
  {
    f[BodyAt(f) + GetU16(f, 6)..BodyAt(f) + GetU16(f, 6) + GetU16(f, 8)]
  }

  predicate ErrorFree(f: seq<byte>)
    requires Whole(f)
  {
    Acknowledges(f) ==> f[10] == 0 && f[11] == 0
  }

  predicate RefAccepted(f: seq<byte>, expected: u16)
    requires Whole(f)
  {
    expected == 0 || GetU16(f, 4) == expected
  }

  /** The frame is a whole reply to this reference without an error. */
  predicate Answers(reply: Reply, expected: u16) {
    && reply.Frame? && reply.tpdu.DT? && Whole(reply.tpdu.userData)
    && RefAccepted(reply.tpdu.userData, expected) && ErrorFree(reply.tpdu.userData)
  }

  lemma WholeExactly(f: seq<byte>)
    ensures Parsed(f).Ok? <==> Whole(f)
    ensures var r := Parsed(f);
            r.Err? ==> r.error == (if |f| < 10 then ShortHeader else if f[0] != 0x32 then InvalidProtocolId
                                   else if |f| < BodyAt(f) then ShortAckHeader else PayloadLength)
    ensures Parsed(f).Ok? ==>
              var (h, rest) := Parsed(f).value;
              && h.pduRef == GetU16(f, 4) && h.paramLength == GetU16(f, 6) && h.dataLength == GetU16(f, 8)
              && rest == f[BodyAt(f)..]
              && (h.errorClass, h.errorCode) == if Acknowledges(f) then (f[10], f[11]) else (0, 0)
  {
  }

  lemma SectionsOf(f: seq<byte>)
    requires Whole(f) && |f| <= MAX_USER_DATA
    ensures Parsed(f).Ok? && GetU16(f, 6) + GetU16(f, 8) < 0x1_0000
    ensures Split(Parsed(f).value.0, Parsed(f).value.1) == (ParamOf(f), DataOf(f))
  {
    WholeExactly(f);
    SplitCannotWrap(f);
    var at, p, d := BodyAt(f), GetU16(f, 6), GetU16(f, 8);
    SliceOfSlice(f, at, 0, p);
    SliceOfSlice(f, at, p, p + d);
  }

  lemma SliceOfSlice(f: seq<byte>, at: nat, a: nat, b: nat)
    requires a <= b && at + b <= |f|
    ensures f[at..][a..b] == f[at + a..at + b]
  {
    forall i | 0 <= i < b - a ensures f[at..][a..b][i] == f[at + a..at + b][i] {}
  }

  /** An exchange's reply is accepted exactly if it answers; then its two sections are the result, and otherwise the error says why. */
  lemma AcceptedExactly(reply: Reply, expected: u16)
    ensures Interpret(reply, expected).Ok? <==> Answers(reply, expected)
    ensures Answers(reply, expected) ==> Interpret(reply, expected) == Ok((ParamOf(reply.tpdu.userData), DataOf(reply.tpdu.userData)))
    ensures !Answers(reply, expected) ==>
              var r := Interpret(reply, expected);
              r == if reply.Undecodable? then Err(DecodeCOTP)
                 else if !reply.tpdu.DT? then Err(NotDataTPDU)
                 else
                   var f := reply.tpdu.userData;
                   if |f| < 10 then Err(ParseHeader(ShortHeader))
                   else if f[0] != 0x32 then Err(ParseHeader(InvalidProtocolId))
                   else if |f| < BodyAt(f) then Err(ParseHeader(ShortAckHeader))
                   else if !Whole(f) then Err(ParseHeader(PayloadLength))
                   else if !RefAccepted(f, expected) then Err(PDURefMismatch(expected, GetU16(f, 4)))
                   else Err(S7Error(f[10], f[11]))
  {
    hide Parsed, Split;
    if reply.Frame? && reply.tpdu.DT? {
      var f := reply.tpdu.userData;
      WholeExactly(f);
      if Whole(f) {
        SectionsOf(f);
      }
    }
  }

  /** An acknowledgement as a device sends it: its sections without an error, the error with one. */
  lemma AcknowledgementMeans(rosctr: byte, ref: u16, errorClass: byte, errorCode: byte, param: seq<byte>, data: seq<byte>, expected: u16)
    requires IsAck(rosctr) && 12 + |param| + |data| <= MAX_USER_DATA
    ensures |AckFrame(rosctr, ref, errorClass, errorCode, param, data)| <= MAX_USER_DATA
    ensures Interpret(Frame(DT(AckFrame(rosctr, ref, errorClass, errorCode, param, data))), expected)
         == if expected != 0 && ref != expected then Err(PDURefMismatch(expected, ref))
            else if errorClass == 0 && errorCode == 0 then Ok((param, data))
            else Err(S7Error(errorClass, errorCode))
  {
    EitherAckRoundTrip(rosctr, ref, errorClass, errorCode, param, data);
    assert |param + data| >= |param| + |data|;
  }

  /** What an exchange comes to, by the size check and the event: a failure of the link, or the oldest unread reply. */
  lemma ExchangeByEvent(l: Link, pduSize: nat, req: seq<byte>, expected: u16)
    requires l.Valid()
    ensures var (l', r) := SendReceive(l, pduSize, req, expected);
            if pduSize > 0 && |req| > pduSize then l' == l && r == Err(RequestExceedsPDU)
            else
              && l'.clock == l.clock + 1
              && match l.env.io(l.clock)
                 case EncodeFails => r == Err(EncodeCOTP) && l'.sent == l.sent
                 case SendFails(e) => r == Err(Io(e)) && l'.sent == l.sent
                 case DoneAfterSend(c) => |req| <= MAX_USER_DATA ==> r == Err(Io(Cancelled(c))) && l'.Lag() == l.Lag() + 1
                 case ReceiveFails(e) => |req| <= MAX_USER_DATA ==> r == Err(Io(e)) && l'.Lag() == l.Lag() + 1
                 case Delivered =>
                   |req| <= MAX_USER_DATA ==> r == Interpret(l'.ReplyAt(l.taken), expected) && l'.sent == l.sent + [DT(req)] && l'.Lag() == l.Lag()
  {
    hide Interpret;
  }

  /** So a delivered request whose device sends such an acknowledgement, on a connection that owes nothing, comes to just that. */
  lemma DeliveredAcknowledgement(l: Link, pduSize: nat, req: seq<byte>, expected: u16, rosctr: byte, ref: u16,
                                 errorClass: byte, errorCode: byte, param: seq<byte>, data: seq<byte>)
    requires l.Valid() && l.Lag() == 0 && l.env.io(l.clock) == Delivered
    requires (pduSize == 0 || |req| <= pduSize) && |req| <= MAX_USER_DATA && IsAck(rosctr) && 12 + |param| + |data| <= MAX_USER_DATA
    requires l.env.serve(l.sent + [DT(req)]) == Frame(DT(AckFrame(rosctr, ref, errorClass, errorCode, param, data)))
    ensures SendReceive(l, pduSize, req, expected).1
         == if expected != 0 && ref != expected then Err(PDURefMismatch(expected, ref))
            else if errorClass == 0 && errorCode == 0 then Ok((param, data))
            else Err(S7Error(errorClass, errorCode))
  {
    hide Interpret;
    AcknowledgementMeans(rosctr, ref, errorClass, errorCode, param, data, expected);
    ExchangeByEvent(l, pduSize, req, expected);
    assert (l.sent + [DT(req)])[..l.taken + 1] == l.sent + [DT(req)];
  }

  // ---------------------------------------------------------------- one chunk

  /** An I/O failure is a timeout if the deadline passed or the network timed out. */
  function IoStatus(e: IoError): ReadStatus {
    if e == Cancelled(DeadlineExceeded) || e == NetTimeout then Timeout else TransportErr
  }

  /** The read ends with this status; bytes read before are dropped. */
  predicate Drops(got: ChunkRead, status: ReadStatus) {
    got.Ends? && got.status == status && !got.keepsData && got.returnCode == 0
  }

  /** The read ends with this status and code; bytes read before are kept. */
  predicate Keeps(got: ChunkRead, status: ReadStatus, code: byte) {
    got.Ends? && got.status == status && got.keepsData && got.returnCode == code && got.cause == None
  }

  /** What a chunk of a read comes to when its reply answers, by the two sections. */
  predicate AnswerMeans(got: ChunkRead, param: seq<byte>, data: seq<byte>) {
    if ParsedReadResponse(param, data).Err? then Keeps(got, ProtocolErr, 0)
    else if |param| < 2 || param[1] == 0 then Keeps(got, EmptyRead, 0)
    else if |data| < 4 then false
    else if data[0] != 0xFF then Keeps(got, Rejected, data[0])
    else
      var len := NormalizeResponseDataLength(data[1], GetU16(data, 2));
      len.Ok? && 4 + len.value <= |data| && got == ChunkRead.Bytes(data[4..4 + len.value])
  }

  /** What it comes to when a reply is taken. */
  predicate ReplyMeans(got: ChunkRead, reply: Reply, expected: u16) {
    if Answers(reply, expected) then AnswerMeans(got, ParamOf(reply.tpdu.userData), DataOf(reply.tpdu.userData))
    else if reply.Frame? && reply.tpdu.DT? && Whole(reply.tpdu.userData) && RefAccepted(reply.tpdu.userData, expected)
    then Drops(got, Rejected)
    else Drops(got, ProtocolErr)
  }

  lemma AnswerMeansIt(param: seq<byte>, data: seq<byte>)
    ensures AnswerMeans(OfReadReply(param, data), param, data)
  {
    if ParsedReadResponse(param, data).Ok? && param[1] > 0 {
      FirstItem(data, param[1]);
    }
  }

  lemma FirstItem(data: seq<byte>, n: nat)
    requires n > 0 && ParsedItems(data, 0, n).Ok?
    ensures |ParsedItems(data, 0, n).value| == n && HoldsItem(data, 0, n == 1)
    ensures PduReadWrite.Window(data, ParsedItems(data, 0, n).value[0], 0, DecodeReadResponseItem(data, 0, n == 1).value.1)
  {
    ItemWindow(data, 0, n == 1);
    var at := TilingFrom(data, 0, n);
    hide PduReadWrite.Window;
  }

  lemma ReplyMeansIt(reply: Reply, expected: u16)
    ensures var r := Interpret(reply, expected);
            ReplyMeans(match r case Err(e) => OfError(e) case Ok((param, data)) => OfReadReply(param, data), reply, expected)
  {
    hide Interpret, OfReadReply;
    AcceptedExactly(reply, expected);
    if Answers(reply, expected) {
      AnswerMeansIt(ParamOf(reply.tpdu.userData), DataOf(reply.tpdu.userData));
    }
  }

  /** Every chunk of a read, by the context, the connection, the size check, the event and the reply. */
  lemma ReadChunkByEvent(s: State, addr: S7AnyAddress)
    requires s.Valid()
    ensures var (s', got) := ReadChunk(s, addr);
            if s.ctx(s.checks).Some? then Drops(got, IoStatus(Cancelled(s.ctx(s.checks).value)))
            else if s.link.None? then Drops(got, TransportErr)
            else if 0 < s.pduSize < 24 then Drops(got, ProtocolErr)
            else
              var l := s.link.value;
              match l.env.io(l.clock)
              case EncodeFails => Drops(got, ProtocolErr)
              case SendFails(e) => Drops(got, IoStatus(e))
              case DoneAfterSend(c) => Drops(got, IoStatus(Cancelled(c)))
              case ReceiveFails(e) => Drops(got, IoStatus(e))
              case Delivered => s'.link.Some? && s'.link.value.taken == l.taken + 1 && l.taken < |s'.link.value.sent|
                                && ReplyMeans(got, s'.link.value.ReplyAt(l.taken), NextRef(s))
  {
    hide Interpret, OfReadReply, ReadRequest, ReplyMeans, SendReceive;
    if s.ctx(s.checks).None? && s.link.Some? {
      var l, req := s.link.value, ReadRequest(NextRef(s), [addr]);
      RequestSizes(NextRef(s), addr, []);
      ExchangeByEvent(l, s.pduSize, req, NextRef(s));
      var l' := SendReceive(l, s.pduSize, req, NextRef(s)).0;
      if l.env.io(l.clock) == Delivered && (s.pduSize == 0 || s.pduSize >= 24) {
        ReplyMeansIt(l'.ReplyAt(l.taken), NextRef(s));
      }
    }
  }

  /** What a chunk of a write comes to when a reply is taken. */
  predicate AcknowledgementOf(failed: Option<WriteError>, reply: Reply, expected: u16) {
    if !Answers(reply, expected) then failed.Some? && failed.value.Failed? && Err(failed.value.error) == Interpret(reply, expected)
    else
      var param, data := ParamOf(reply.tpdu.userData), DataOf(reply.tpdu.userData);
      if |param| < 2 then failed == Some(RW_Refused(BadParam(ParamTooShort)))
      else if param[0] != 0x05 then failed == Some(RW_Refused(BadParam(WrongFunction)))
      else if data == [] then failed == Some(RW_Refused(BadParam(DataTooShort)))
      else if data[0] != 0xFF then failed == Some(RW_Refused(ReturnCode(data[0])))
      else failed == None
  }

  function RW_Refused(e: ParseError): WriteError { WriteError.Refused(e) }

  lemma AcknowledgementIs(reply: Reply, expected: u16)
    ensures AcknowledgementOf(match Interpret(reply, expected)
                              case Err(e) => Some(Failed(e))
                              case Ok((param, data)) => (match ParseWriteVarResponse(param, data) case Some(e) => Some(RW_Refused(e)) case None => None),
                              reply, expected)
  {
    hide Interpret;
    AcceptedExactly(reply, expected);
  }

  /** Every chunk of a write likewise; it is acknowledged exactly by an answer to function 5 whose first data byte is 0xFF. */
  lemma WriteChunkByEvent(s: State, addr: S7AnyAddress, chunk: seq<byte>)
    requires s.Valid()
    ensures var (s', failed) := WriteChunk(s, addr, chunk);
            var n := 28 + |chunk| + |chunk| % 2;
            if s.ctx(s.checks).Some? then failed == Some(Failed(Io(Cancelled(s.ctx(s.checks).value))))
            else if s.link.None? then failed == Some(Failed(NotConnected))
            else if s.pduSize > 0 && n > s.pduSize then failed == Some(Failed(RequestExceedsPDU))
            else
              var l := s.link.value;
              match l.env.io(l.clock)
              case EncodeFails => failed == Some(Failed(EncodeCOTP))
              case SendFails(e) => failed == Some(Failed(Io(e)))
              case DoneAfterSend(c) => n <= MAX_USER_DATA ==> failed == Some(Failed(Io(Cancelled(c))))
              case ReceiveFails(e) => n <= MAX_USER_DATA ==> failed == Some(Failed(Io(e)))
              case Delivered => n <= MAX_USER_DATA ==>
                                  && s'.link.Some? && s'.link.value.taken == l.taken + 1 && l.taken < |s'.link.value.sent|
                                  && AcknowledgementOf(failed, s'.link.value.ReplyAt(l.taken), NextRef(s))
  {
    hide Interpret, WriteRequest, AcknowledgementOf, ParseWriteVarResponse, SendReceive;
    if s.ctx(s.checks).None? && s.link.Some? {
      var l, req := s.link.value, WriteRequest(NextRef(s), addr, chunk);
      RequestSizes(NextRef(s), addr, chunk);
      ExchangeByEvent(l, s.pduSize, req, NextRef(s));
      var l' := SendReceive(l, s.pduSize, req, NextRef(s)).0;
      if l.taken < |l'.sent| {
        AcknowledgementIs(l'.ReplyAt(l.taken), NextRef(s));
      }
    }
  }

  // ---------------------------------------------------------------- one segment of an upload

  /** What an attempt at a segment comes to when a reply is taken. */
  predicate SegmentMeans(r: Result<PB.UploadChunk, U.UploadError>, reply: Reply, expected: u16) {
    if !Answers(reply, expected) then r.Err? && r.error.ChunkRefused? && Err(r.error.error) == Interpret(reply, expected)
    else
      var param, data := ParamOf(reply.tpdu.userData), DataOf(reply.tpdu.userData);
      if |param| < 2 || param[0] != 0x1E || |data| < 4 || 4 + (GetU16(data, 2) + 7) / 8 > |data| then r == Err(U.ChunkUnparsable)
      else r == Ok(PB.UploadChunk(param[1] == 0, data[4..4 + (GetU16(data, 2) + 7) / 8]))
  }

  lemma SegmentMeansIt(reply: Reply, expected: u16)
    ensures match Interpret(reply, expected)
            case Err(e) => U.IsUploadProtocolError(e) && SegmentMeans(Err(U.ChunkRefused(e)), reply, expected)
            case Ok((param, data)) =>
              SegmentMeans(match PB.ParseUploadResponse(param, data) case None => Err(U.ChunkUnparsable) case Some(chunk) => Ok(chunk),
                           reply, expected)
  {
    hide Interpret;
    AcceptedExactly(reply, expected);
  }

  /** The frame did not fit or a step of I/O failed: the next of at most three attempts follows, under the next reference. */
  ghost predicate Retries(s: State, id: seq<byte>, left: nat, s': State, r: Result<PB.UploadChunk, U.UploadError>, error: Error)
    requires s.Valid() && s.link.Some? && left > 0
  {
    var s1 := Call(CtxErr(s).0, PB.UploadRequest(NextRef(s), id)).0;
    && s1.issued == s.issued + 1 && s1.link.Some? && s1.link.value.taken == s.link.value.taken
    && if left == 1 then r == Err(U.RetriesExhausted(error)) && s' == s1 else (s', r) == U.TryChunk(s1, id, left - 1, error)
  }

  lemma AttemptUnfolds(s: State, id: seq<byte>, left: nat, last: Error)
    requires s.Valid() && left > 0 && s.ctx(s.checks).None?
    ensures var (s2, got) := Call(CtxErr(s).0, PB.UploadRequest(NextRef(s), id));
            U.TryChunk(s, id, left, last)
            == match got
               case Err(e) =>
                 if U.IsUploadProtocolError(e) then (s2, Err(U.ChunkRefused(e)))
                 else if left == 1 then (s2, Err(U.RetriesExhausted(e)))
                 else U.TryChunk(s2, id, left - 1, e)
               case Ok((param, data)) =>
                 (s2, match PB.ParseUploadResponse(param, data) case None => Err(U.ChunkUnparsable) case Some(chunk) => Ok(chunk))
  {
    hide Call, PB.SessionRequest, PB.ParseUploadResponse;
  }

  /** Every attempt at a segment, by the context, the size check, the event and the reply: what is retried, and what is not. */
  lemma AttemptByEvent(s: State, id: seq<byte>, left: nat, last: Error)
    requires s.Valid() && s.link.Some? && left > 0
    ensures var (s', r) := U.TryChunk(s, id, left, last);
            var l := s.link.value;
            if s.ctx(s.checks).Some? then r == Err(U.ContextDone(s.ctx(s.checks).value))
            else if 0 < s.pduSize < 19 + (if |id| > 255 then 255 else |id|) then Retries(s, id, left, s', r, RequestExceedsPDU)
            else
              match l.env.io(l.clock)
              case EncodeFails => r == Err(U.ChunkRefused(EncodeCOTP))
              case SendFails(e) => Retries(s, id, left, s', r, Io(e))
              case DoneAfterSend(c) => Retries(s, id, left, s', r, Io(Cancelled(c)))
              case ReceiveFails(e) => Retries(s, id, left, s', r, Io(e))
              case Delivered => s'.link.Some? && s'.link.value.taken == l.taken + 1 && l.taken < |s'.link.value.sent|
                                && SegmentMeans(r, s'.link.value.ReplyAt(l.taken), NextRef(s))
  {
    hide Interpret, PB.SessionRequest, SendReceive, SegmentMeans, PB.ParseUploadResponse;
    if s.ctx(s.checks).None? {
      hide U.TryChunk;
      AttemptUnfolds(s, id, left, last);
      var l, req := s.link.value, PB.UploadRequest(NextRef(s), id);
      U.SessionRequestLength(PB.FUNC_UPLOAD, NextRef(s), id);
      ExchangeByEvent(l, s.pduSize, req, NextRef(s));
      var l' := SendReceive(l, s.pduSize, req, NextRef(s)).0;
      if l.taken < |l'.sent| {
        SegmentMeansIt(l'.ReplyAt(l.taken), NextRef(s));
      }
    }
  }

  // ---------------------------------------------------------------- a whole read

  /** The state after these chunks, when all of them bring bytes. */
  function StateAfter(s: State, area: byte, db: int, offset: int, chunks: seq<nat>): (s': State)
    requires s.Valid()
    ensures s'.Valid()
    decreases |chunks|
  {
    if chunks == [] then s
    else StateAfter(ReadChunk(s, S7AnyAddress(area, db, offset, chunks[0])).0, area, db, offset + chunks[0], chunks[1..])
  }

  /** Chunk k is the first that ends the read: the ones before it brought these bytes. */
  ghost predicate EndsAt(s: State, area: byte, db: int, offset: int, chunks: seq<nat>, k: nat, answers: seq<seq<byte>>, end: ChunkRead)
    requires s.Valid()
  {
    && k < |chunks| && end.Ends? && ChunkAnswers(s, area, db, offset, chunks[..k]) == Some(answers)
    && end == ReadChunk(StateAfter(s, area, db, offset, chunks[..k]), S7AnyAddress(area, db, offset + Sum(chunks[..k]), chunks[k])).1
  }

  lemma {:induction false} EndedRead(s: State, area: byte, db: int, offset: int, chunks: seq<nat>, result: seq<byte>, requested: int)
    returns (k: nat, answers: seq<seq<byte>>, end: ChunkRead)
    requires s.Valid() && ChunkAnswers(s, area, db, offset, chunks) == None
    ensures EndsAt(s, area, db, offset, chunks, k, answers, end)
    ensures var kept := if end.keepsData then result + Flatten(answers) else [];
            ReadChunks(s, area, db, offset, chunks, result, requested).1
            == ReadResult(end.status, requested, |kept|, kept, end.returnCode, end.cause)
    decreases |chunks|
  {
    hide ReadChunk;
    var n, a := chunks[0], S7AnyAddress(area, db, offset, chunks[0]);
    var (s1, got) := ReadChunk(s, a);
    if got.Ends? {
      k, answers, end := 0, [], got;
      assert chunks[..0] == [] && result + [] == result;
    } else {
      var k1, later;
      k1, later, end := EndedRead(s1, area, db, offset + n, chunks[1..], result + got.data, requested);
      k, answers := k1 + 1, [got.data] + later;
      assert chunks[..k][1..] == chunks[1..][..k1] && chunks[..k][0] == n;
      assert result + got.data + Flatten(later) == result + Flatten(answers);
    }
  }

  /**
   A read that a chunk ends has that chunk's status, return code and cause, and the bytes of the chunks before
   it if they are kept; what the chunk came to is ReadChunkByEvent's.
   */
  lemma FailedReadExactly(s: State, addr: Address) returns (k: nat, answers: seq<seq<byte>>, end: ChunkRead)
    requires s.Valid() && ValidateAddress(addr).None?
    requires ChunkAnswers(s, addr.area, addr.dbNumber, addr.start, Plan(addr.size, MaxReadData(s.pduSize))) == None
    ensures EndsAt(s, addr.area, addr.dbNumber, addr.start, Plan(addr.size, MaxReadData(s.pduSize)), k, answers, end)
    ensures var kept := if end.keepsData then Flatten(answers) else [];
            ReadArea(s, addr).1 == Ok(ReadResult(end.status, addr.size, |kept|, kept, end.returnCode, end.cause))
  {
    k, answers, end := EndedRead(s, addr.area, addr.dbNumber, addr.start, Plan(addr.size, MaxReadData(s.pduSize)), [], addr.size);
    assert [] + Flatten(answers) == Flatten(answers);
  }

  /** A read whose chunks all brought bytes is empty, short or successful by how many they are; its data is all of them. */
  lemma CompletedReadExactly(s: State, addr: Address)
    requires s.Valid() && ValidateAddress(addr).None? && addr.size > 0
    ensures var answers := ChunkAnswers(s, addr.area, addr.dbNumber, addr.start, Plan(addr.size, MaxReadData(s.pduSize)));
            var r := ReadArea(s, addr).1.value;
            answers.Some? ==>
              && r.data == Flatten(answers.value) && r.returnedLength == |r.data| && r.requestedLength == addr.size
              && r.returnCode == 0 && r.cause == None
              && (r.status == EmptyRead <==> |r.data| == 0)
              && (r.status == ShortRead <==> 0 < |r.data| < addr.size)
              && (r.status == Success <==> |r.data| >= addr.size)
  {
    var chunks := Plan(addr.size, MaxReadData(s.pduSize));
    CompletedChunks(s, addr.area, addr.dbNumber, addr.start, chunks, [], addr.size);
    var answers := ChunkAnswers(s, addr.area, addr.dbNumber, addr.start, chunks);
    if answers.Some? {
      assert [] + Flatten(answers.value) == Flatten(answers.value);
    }
  }

  lemma {:induction false} CompletedChunks(s: State, area: byte, db: int, offset: int, chunks: seq<nat>, result: seq<byte>, requested: int)
    requires s.Valid()
    ensures var answers := ChunkAnswers(s, area, db, offset, chunks);
            answers.Some? ==>
              var all := result + Flatten(answers.value);
              ReadChunks(s, area, db, offset, chunks, result, requested).1
              == ReadResult(ClassifyReadOutcome(requested, |all|), requested, |all|, all, 0, None)
    decreases |chunks|
  {
    hide ReadChunk;
    if chunks == [] {
      assert result + [] == result;
    } else {
      var (s1, got) := ReadChunk(s, S7AnyAddress(area, db, offset, chunks[0]));
      if got.Bytes? {
        CompletedChunks(s1, area, db, offset + chunks[0], chunks[1..], result + got.data, requested);
        var more := ChunkAnswers(s1, area, db, offset + chunks[0], chunks[1..]);
        if more.Some? {
          assert result + got.data + Flatten(more.value) == result + Flatten([got.data] + more.value);
        }
      }
    }
  }

  /**
   Every chunk but the last carries as much as its request leaves room for in the PDU, 24 bytes less for a read and 28 for
   a write; 200 bytes where that leaves no room, as without a negotiated PDU size.
   */
  lemma ChunkSizes(total: int, pduSize: nat, i: nat)
    ensures i + 1 < |Plan(total, MaxReadData(pduSize))| ==> Plan(total, MaxReadData(pduSize))[i] == if pduSize > 24 then pduSize - 24 else 200
    ensures i + 1 < |Plan(total, MaxWritePayload(pduSize))| ==> Plan(total, MaxWritePayload(pduSize))[i] == if pduSize > 28 then pduSize - 28 else 200
  {
    if i + 1 < |Plan(total, MaxReadData(pduSize))| {
      PlanIsFullBeforeLast(total, MaxReadData(pduSize), i);
    }
    if i + 1 < |Plan(total, MaxWritePayload(pduSize))| {
      PlanIsFullBeforeLast(total, MaxWritePayload(pduSize), i);
    }
  }

  // ---------------------------------------------------------------- a whole write, and addresses refused

  /** What chunk k of a write comes to, after the chunks before it. */
  function ChunkWritten(s: State, area: byte, db: int, start: int, data: seq<byte>, offset: nat, chunks: seq<nat>, k: nat): (State, Option<WriteError>)
    requires s.Valid() && offset + Sum(chunks) <= |data| && k < |chunks|
    decreases k
  {
    var n := chunks[0];
    var (s', failed) := WriteChunk(s, S7AnyAddress(area, db, start + offset, n), data[offset..offset + n]);
    if k == 0 then (s', failed) else ChunkWritten(s', area, db, start, data, offset + n, chunks[1..], k - 1)
  }

  lemma {:induction false} EndedWrite(s: State, area: byte, db: int, start: int, data: seq<byte>, offset: nat, chunks: seq<nat>) returns (k: nat)
    requires s.Valid() && offset + Sum(chunks) == |data|
    ensures k <= |chunks| && forall i :: 0 <= i < k ==> ChunkWritten(s, area, db, start, data, offset, chunks, i).1.None?
    ensures var failed := WriteChunks(s, area, db, start, data, offset, chunks).1;
            if k == |chunks| then failed == None
            else failed.Some? && failed == ChunkWritten(s, area, db, start, data, offset, chunks, k).1
    decreases |chunks|
  {
    hide WriteChunk;
    k := 0;
    if chunks != [] {
      var n := chunks[0];
      var (s1, failed) := WriteChunk(s, S7AnyAddress(area, db, start + offset, n), data[offset..offset + n]);
      if failed.None? {
        k := EndedWrite(s1, area, db, start, data, offset + n, chunks[1..]);
        forall i | 0 <= i < k + 1 ensures ChunkWritten(s, area, db, start, data, offset, chunks, i).1.None? {
          assert i > 0 ==> ChunkWritten(s1, area, db, start, data, offset + n, chunks[1..], i - 1).1.None?;
        }
        k := k + 1;
      }
    }
  }

  /**
   A write sends its chunks in order up to the first that is not acknowledged, and reports just what that one came to;
   it reports no error exactly if all are acknowledged. What a chunk came to is WriteChunkByEvent's.
   */
  lemma WriteEndsExactly(s: State, addr: Address, data: seq<byte>) returns (k: nat)
    requires s.Valid() && ValidateAddress(addr).None?
    ensures Sum(Plan(|data|, MaxWritePayload(s.pduSize))) == |data|
    ensures var chunks, s1, failed := Plan(|data|, MaxWritePayload(s.pduSize)), CtxErr(s).0, WriteArea(s, addr, data).1;
            if s.ctx(s.checks).Some? then failed == Some(Failed(Io(Cancelled(s.ctx(s.checks).value))))
            else
              && k <= |chunks|
              && (forall i :: 0 <= i < k ==> ChunkWritten(s1, addr.area, addr.dbNumber, addr.start, data, 0, chunks, i).1.None?)
              && (failed.None? <==> k == |chunks|)
              && (k < |chunks| ==> failed == ChunkWritten(s1, addr.area, addr.dbNumber, addr.start, data, 0, chunks, k).1)
  {
    hide WriteChunks, Plan, ChunkWritten;
    PlanIsExact(|data|, MaxWritePayload(s.pduSize));
    k := EndedWrite(CtxErr(s).0, addr.area, addr.dbNumber, addr.start, data, 0, Plan(|data|, MaxWritePayload(s.pduSize)));
  }

  lemma {:induction false} ChunkIsValid(s: State, area: byte, db: int, start: int, data: seq<byte>, offset: nat, chunks: seq<nat>, k: nat)
    requires s.Valid() && offset + Sum(chunks) <= |data| && k < |chunks|
    ensures var failed := ChunkWritten(s, area, db, start, data, offset, chunks, k).1; failed.Some? ==> !failed.value.Invalid?
    decreases k
  {
    hide Call;
    if k > 0 {
      var n := chunks[0];
      var s1 := WriteChunk(s, S7AnyAddress(area, db, start + offset, n), data[offset..offset + n]).0;
      ChunkIsValid(s1, area, db, start, data, offset + n, chunks[1..], k - 1);
    }
  }

  /** Reads and writes refuse an address, and then do nothing, exactly if its start, its size or a data block's number is negative. */
  lemma RefusedAddresses(s: State, addr: Address, data: seq<byte>)
    requires s.Valid()
    ensures var (r', read) := ReadArea(s, addr);
            var (w', written) := WriteArea(s, addr, data);
            var refused := addr.start < 0 || addr.size < 0 || (addr.area == 0x84 && addr.dbNumber < 0);
            && (refused <==> read.Err?) && (refused <==> written.Some? && written.value.Invalid?)
            && (refused ==> r' == s && w' == s)
  {
    hide ReadChunks, WriteChunks;
    PlanIsExact(|data|, MaxWritePayload(s.pduSize));
    if ValidateAddress(addr).None? && s.ctx(s.checks).None? {
      var k := WriteEndsExactly(s, addr, data);
      var chunks := Plan(|data|, MaxWritePayload(s.pduSize));
      if k < |chunks| {
        ChunkIsValid(CtxErr(s).0, addr.area, addr.dbNumber, addr.start, data, 0, chunks, k);
      }
      hide Plan, ChunkWritten, WriteArea;
    }
  }
}
