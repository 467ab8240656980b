/** client/readwrite.go: chunk planning, chunked reads with outcome classification, chunked writes. */
module ReadWrite {
  import opened Bytes
  import opened S7
  import opened PduReadWrite
  import opened Link
  import opened Exchange

  const AREA_DB: byte := 0x84

  datatype Address = Address(area: byte, dbNumber: int, start: int, size: int)

  datatype ReadStatus =
    | Success | ShortRead | EmptyRead | Rejected | Timeout | TransportErr | ProtocolErr | Inconclusive
    | OtherStatus(name: string)

  datatype ReadResult = ReadResult(
    status: ReadStatus,
    requestedLength: int,
    returnedLength: nat,
    data: seq<byte>,
    returnCode: byte,
    cause: Option<Error>)

  datatype ValidationError = NegativeStart | NegativeSize | NegativeDB
  datatype WriteError = Invalid(why: ValidationError) | Failed(error: Error) | Refused(response: ParseError)

  function ValidateAddress(addr: Address): Option<ValidationError> {
    if addr.start < 0 then Some(NegativeStart)
    else if addr.size < 0 then Some(NegativeSize)
    else if addr.area == AREA_DB && addr.dbNumber < 0 then Some(NegativeDB)
    else None
  }

  function ClassifyOpError(err: Error): ReadStatus {
    match err
    case NotConnected => TransportErr
    case RequestExceedsPDU => ProtocolErr
    case EncodeCOTP => ProtocolErr
    case Io(Cancelled(DeadlineExceeded)) => Timeout
    case Io(NetTimeout) => Timeout
    case Io(_) => TransportErr
    case S7Error(_, _) => Rejected
    case DecodeCOTP => ProtocolErr
    case NotDataTPDU => ProtocolErr
    case ParseHeader(_) => ProtocolErr
    case PDURefMismatch(_, _) => ProtocolErr
    case ShortPayload => ProtocolErr
  }

  function ClassifyReadOutcome(requested: int, returned: nat): ReadStatus {
    if requested <= 0 then Success
    else if returned == 0 then EmptyRead
    else if returned < requested then ShortRead
    else Success
  }

  // ---------------------------------------------------------------- planning

  function Plan(total: int, maxChunk: int): seq<nat>
    decreases total
  {
    if total <= 0 then []
    else if maxChunk <= 0 || total <= maxChunk then [total]
    else [maxChunk] + Plan(total - maxChunk, maxChunk)
  }

  lemma PlanOne(remaining: nat, maxChunk: int, n: nat)
    requires remaining > 0 && n == if maxChunk <= 0 || remaining <= maxChunk then remaining else maxChunk
    ensures Plan(remaining, maxChunk) == [n] + Plan(remaining - n, maxChunk)
  {
  }

  method PlanReadChunks(total: int, maxChunk: int) returns (out: seq<nat>)
    ensures out == Plan(total, maxChunk)
  {
    if total <= 0 {
      return [];
    }
    hide Plan;
    var limit := if maxChunk <= 0 then total else maxChunk;
    out := [];
    assert out + Plan(total, maxChunk) == Plan(total, maxChunk);
    var remaining := total;
    while remaining > 0
      invariant 0 <= remaining <= total
      invariant maxChunk <= 0 ==> remaining == total || remaining == 0
      invariant Plan(total, maxChunk) == out + Plan(remaining, maxChunk)
    {
      var n := remaining;
      if n > limit {
        n := limit;
      }
      PlanOne(remaining, maxChunk, n);
      assert out + ([n] + Plan(remaining - n, maxChunk)) == out + [n] + Plan(remaining - n, maxChunk);
      out := out + [n];
      remaining := remaining - n;
    }
    NoPlan(maxChunk);
  }

  lemma NoPlan(maxChunk: int)
    ensures Plan(0, maxChunk) == []
  {
  }

  /** Chunks are positive, at most the limit, and add up to the total. */
  lemma {:induction false} PlanIsExact(total: int, maxChunk: int)
    ensures Sum(Plan(total, maxChunk)) == if total <= 0 then 0 else total
    ensures forall c :: c in Plan(total, maxChunk) ==> 0 < c && (maxChunk > 0 ==> c <= maxChunk)
    decreases total
  {
    if total > 0 && maxChunk > 0 && total > maxChunk {
      PlanIsExact(total - maxChunk, maxChunk);
    }
  }

  /** All chunks but the last are full. */
  lemma {:induction false} PlanIsFullBeforeLast(total: int, maxChunk: int, i: nat)
    requires maxChunk > 0 && i + 1 < |Plan(total, maxChunk)|
    ensures Plan(total, maxChunk)[i] == maxChunk
    decreases total
  {
    if i > 0 {
      PlanIsFullBeforeLast(total - maxChunk, maxChunk, i - 1);
    }
  }

  function MaxReadData(pduSize: nat): int {
    if pduSize - READ_VAR_REQUEST_OVERHEAD < 1 then 200 else pduSize - READ_VAR_REQUEST_OVERHEAD
  }

  function MaxWritePayload(pduSize: nat): int {
    if pduSize - WRITE_VAR_REQUEST_OVERHEAD < 1 then 200 else pduSize - WRITE_VAR_REQUEST_OVERHEAD
  }

  /** sendReceive's size check on a request of n bytes. */
  predicate FitsPDU(pduSize: nat, n: nat) {
    pduSize == 0 || n <= pduSize
  }

  predicate WriteChunkFits(pduSize: nat, chunk: nat) {
    FitsPDU(pduSize, WRITE_VAR_REQUEST_OVERHEAD + chunk + chunk % 2)
  }

  /**
   Exactly when every request of a write passes the size check: the padding byte is added after the
   chunk was sized, so with an odd PDU size a full chunk comes out one byte too long.
   */
  predicate WriteFits(pduSize: nat, total: nat) {
    || total == 0 || pduSize == 0
    || (pduSize > WRITE_VAR_REQUEST_OVERHEAD && (pduSize % 2 == 0 || total < pduSize - WRITE_VAR_REQUEST_OVERHEAD))
  }

  lemma PlannedWritesFitExactly(pduSize: nat, total: nat)
    ensures WriteFits(pduSize, total)
       <==> forall c :: c in Plan(total, MaxWritePayload(pduSize)) ==> WriteChunkFits(pduSize, c)
  {
    var max := MaxWritePayload(pduSize);
    var chunks := Plan(total, max);
    PlanIsExact(total, max);
    if total > 0 {
      assert chunks[0] in chunks && chunks[0] == if total <= max then total else max;
      if pduSize > WRITE_VAR_REQUEST_OVERHEAD && pduSize % 2 == 0 {
        forall c | c in chunks ensures WriteChunkFits(pduSize, c) {
          assert c + c % 2 <= max;
        }
      }
    }
  }

  /**
   Every read request passes the size check exactly from 24 up (or unnegotiated), and the one-item replies
   a device sends to the planned chunks fit exactly from 25 up, or when the whole read is short enough.
   */
  lemma PlannedReadsFitExactly(pduSize: nat, total: nat, ref: u16, addr: S7AnyAddress)
    ensures FitsPDU(pduSize, |ReadRequest(ref, [addr])|) <==> pduSize == 0 || pduSize >= 24
    ensures (forall payload: seq<byte> :: |payload| in Plan(total, MaxReadData(pduSize)) ==> FitsPDU(pduSize, |OneItemReply(ref, payload)|))
            <==> pduSize > 24 || pduSize == 0 || total == 0 || 18 + total + total % 2 <= pduSize
  {
    RequestSizes(ref, addr, []);
    var chunks := Plan(total, MaxReadData(pduSize));
    PlanIsExact(total, MaxReadData(pduSize));
    if total > 0 {
      var first := seq(chunks[0], _ => 0);
      assert |first| in chunks && chunks[0] == if total <= MaxReadData(pduSize) then total else MaxReadData(pduSize);
      ReplySize(ref, first);
    }
    forall payload: seq<byte> | |payload| in chunks ensures |OneItemReply(ref, payload)| == 18 + |payload| + |payload| % 2 {
      ReplySize(ref, payload);
    }
  }

  /** A device's padded reply to a one-item read, in the 12-byte acknowledgement. */
  function OneItemReply(ref: u16, payload: seq<byte>): seq<byte> {
    AckBytes(ref, 0, 0, [FUNC_READ_VAR, 1], WireItem(RET_CODE_SUCCESS, 0x04, (8 * |payload|) % 0x1_0000, payload).Bytes(Some(0)))
  }

  lemma ReplySize(ref: u16, payload: seq<byte>)
    ensures |OneItemReply(ref, payload)| == 18 + |payload| + |payload| % 2
  {
  }

  // ---------------------------------------------------------------- reading

  /** What one chunk of a read came to: the item's bytes, or the result the whole read ends with. */
  datatype ChunkRead = Bytes(data: seq<byte>) | Ends(status: ReadStatus, keepsData: bool, returnCode: byte, cause: Option<Error>)

  function OfError(e: Error): ChunkRead {
    Ends(ClassifyOpError(e), false, 0, Some(e))
  }

  function OfReadReply(param: seq<byte>, data: seq<byte>): ChunkRead {
    match ParsedReadResponse(param, data)
    case Err(_) => Ends(ProtocolErr, true, 0, None)
    case Ok(items) =>
      if items == [] then Ends(EmptyRead, true, 0, None)
      else if items[0].returnCode != RET_CODE_SUCCESS then Ends(Rejected, true, items[0].returnCode, None)
      else Bytes(items[0].data.GetOr([]))
  }

  /** Iteration of ReadArea's loop for one chunk (the rate-limit pause is one more chance to be cancelled). */
  function ReadChunk(s: State, addr: S7AnyAddress): (r: (State, ChunkRead))
    requires s.Valid()
    ensures r.0.Valid() && r.0.pduSize == s.pduSize
  {
    var (s1, done) := CtxErr(s);
    if done.Some? then (s1, OfError(Io(Cancelled(done.value)))) else
    var (s2, got) := Call(s1, ReadRequest(NextRef(s1), [addr]));
    match got
    case Err(e) => (s2, OfError(e))
    case Ok((param, data)) => (s2, OfReadReply(param, data))
  }

  function ReadChunks(s: State, area: byte, db: int, offset: int, chunks: seq<nat>, result: seq<byte>, requested: int)
    : (r: (State, ReadResult))
    requires s.Valid()
    ensures r.0.Valid() && r.0.pduSize == s.pduSize
    decreases |chunks|
  {
    if chunks == [] then
      (s, ReadResult(ClassifyReadOutcome(requested, |result|), requested, |result|, result, 0, None))
    else
      var (s', got) := ReadChunk(s, S7AnyAddress(area, db, offset, chunks[0]));
      match got
      case Ends(status, keeps, code, cause) =>
        (s', ReadResult(status, requested, if keeps then |result| else 0, if keeps then result else [], code, cause))
      case Bytes(data) =>
        ReadChunks(s', area, db, offset + chunks[0], chunks[1..], result + data, requested)
  }

  function ReadArea(s: State, addr: Address): (r: (State, Result<ReadResult, ValidationError>))
    requires s.Valid()
    ensures r.0.Valid() && r.0.pduSize == s.pduSize
  {
    match ValidateAddress(addr)
    case Some(e) => (s, Err(e))
    case None =>
      var (s', r) := ReadChunks(s, addr.area, addr.dbNumber, addr.start, Plan(addr.size, MaxReadData(s.pduSize)), [], addr.size);
      (s', Ok(r))
  }

  /** The bytes each chunk contributed, when every chunk of the read contributed some answer. */
  function ChunkAnswers(s: State, area: byte, db: int, offset: int, chunks: seq<nat>): (r: Option<seq<seq<byte>>>)
    requires s.Valid()
    ensures r.Some? ==> |r.value| == |chunks|
    decreases |chunks|
  {
    if chunks == [] then Some([]) else
    var (s', got) := ReadChunk(s, S7AnyAddress(area, db, offset, chunks[0]));
    if got.Ends? then None else
    match ChunkAnswers(s', area, db, offset + chunks[0], chunks[1..])
    case None => None
    case Some(more) => Some([got.data] + more)
  }

  lemma EndsNeverSucceeds(s: State, addr: S7AnyAddress)
    requires s.Valid()
    ensures var got := ReadChunk(s, addr).1; got.Ends? ==> got.status != Success
  {
  }

  /** What a read returns, given what its chunks contributed. */
  ghost predicate OutcomeOf(r: ReadResult, answers: Option<seq<seq<byte>>>, result: seq<byte>, requested: int) {
    if answers.None? then r.status != Success
    else
      && r.data == result + Flatten(answers.value) && r.returnedLength == |r.data|
      && r.status == ClassifyReadOutcome(requested, |r.data|)
  }

  lemma OutcomeShift(r: ReadResult, data: seq<byte>, more: seq<seq<byte>>, result: seq<byte>, requested: int)
    requires OutcomeOf(r, Some(more), result + data, requested)
    ensures OutcomeOf(r, Some([data] + more), result, requested)
  {
    assert result + data + Flatten(more) == result + Flatten([data] + more);
  }

  lemma {:induction false} ReadChunksOutcome(
      s: State, area: byte, db: int, offset: int, chunks: seq<nat>, result: seq<byte>, requested: int)
    requires s.Valid()
    ensures OutcomeOf(ReadChunks(s, area, db, offset, chunks, result, requested).1,
                      ChunkAnswers(s, area, db, offset, chunks), result, requested)
    decreases |chunks|
  {
    hide ReadChunk;
    if chunks == [] {
      assert result + [] == result;
    } else {
      var addr := S7AnyAddress(area, db, offset, chunks[0]);
      EndsNeverSucceeds(s, addr);
      var (s', got) := ReadChunk(s, addr);
      if got.Bytes? {
        ReadChunksOutcome(s', area, db, offset + chunks[0], chunks[1..], result + got.data, requested);
        var more := ChunkAnswers(s', area, db, offset + chunks[0], chunks[1..]);
        if more.Some? {
          OutcomeShift(ReadChunks(s', area, db, offset + chunks[0], chunks[1..], result + got.data, requested).1,
                       got.data, more.value, result, requested);
        }
      }
    }
  }

  ghost predicate NoneOverlong(answers: seq<seq<byte>>, chunks: seq<nat>)
    requires |answers| == |chunks|
  {
    forall i :: 0 <= i < |chunks| ==> |answers[i]| <= chunks[i]
  }

  ghost predicate AllFull(answers: seq<seq<byte>>, chunks: seq<nat>)
    requires |answers| == |chunks|
  {
    forall i :: 0 <= i < |chunks| ==> |answers[i]| == chunks[i]
  }

  lemma {:induction false} FullExactlyWhenTotal(answers: seq<seq<byte>>, chunks: seq<nat>)
    requires |answers| == |chunks| && NoneOverlong(answers, chunks)
    ensures |Flatten(answers)| <= Sum(chunks)
    ensures |Flatten(answers)| == Sum(chunks) <==> AllFull(answers, chunks)
    decreases |chunks|
  {
    if chunks != [] {
      FullExactlyWhenTotal(answers[1..], chunks[1..]);
      if AllFull(answers[1..], chunks[1..]) && |answers[0]| == chunks[0] {
        forall i | 0 <= i < |chunks| ensures |answers[i]| == chunks[i] {
          if i > 0 {
            assert answers[1..][i - 1] == answers[i];
          }
        }
      }
      if AllFull(answers, chunks) {
        forall i | 0 <= i < |chunks[1..]| ensures |answers[1..][i]| == chunks[1..][i] {
          assert answers[1..][i] == answers[i + 1];
        }
      }
    }
  }

  /**
   If no chunk reply is longer than asked, a read reports success exactly when every chunk came back
   full, and then its data is the chunks in order; a short chunk in the middle is never hidden.
   */
  lemma ReadSuccessExactly(s: State, addr: Address)
    requires s.Valid() && ValidateAddress(addr).None? && addr.size > 0
    ensures var chunks := Plan(addr.size, MaxReadData(s.pduSize));
            var answers := ChunkAnswers(s, addr.area, addr.dbNumber, addr.start, chunks);
            var r := ReadArea(s, addr).1.value;
            (answers.Some? ==> NoneOverlong(answers.value, chunks)) ==>
              && (r.status == Success <==> answers.Some? && AllFull(answers.value, chunks))
              && (r.status == Success ==> r.data == Flatten(answers.value) && |r.data| == addr.size)
  {
    var chunks := Plan(addr.size, MaxReadData(s.pduSize));
    ReadChunksOutcome(s, addr.area, addr.dbNumber, addr.start, chunks, [], addr.size);
    PlanIsExact(addr.size, MaxReadData(s.pduSize));
    var answers := ChunkAnswers(s, addr.area, addr.dbNumber, addr.start, chunks);
    if answers.Some? && NoneOverlong(answers.value, chunks) {
      FullExactlyWhenTotal(answers.value, chunks);
      assert [] + Flatten(answers.value) == Flatten(answers.value);
    }
  }

  /**
   With over-long replies too, exactly when success still means that: every chunk of the read having answered, the two agree
   if and only if no reply was too long, or the replies together were still too short.
   */
  lemma SuccessMeansFullExactly(s: State, addr: Address)
    requires s.Valid() && ValidateAddress(addr).None? && addr.size > 0
    ensures var chunks := Plan(addr.size, MaxReadData(s.pduSize));
            var answers := ChunkAnswers(s, addr.area, addr.dbNumber, addr.start, chunks);
            var r := ReadArea(s, addr).1.value;
            answers.Some? ==>
              ((r.status == Success <==> AllFull(answers.value, chunks))
               <==> NoneOverlong(answers.value, chunks) || |Flatten(answers.value)| < addr.size)
  {
    var chunks := Plan(addr.size, MaxReadData(s.pduSize));
    ReadChunksOutcome(s, addr.area, addr.dbNumber, addr.start, chunks, [], addr.size);
    PlanIsExact(addr.size, MaxReadData(s.pduSize));
    var answers := ChunkAnswers(s, addr.area, addr.dbNumber, addr.start, chunks);
    if answers.Some? {
      assert [] + Flatten(answers.value) == Flatten(answers.value);
      TotalMeansFullExactly(answers.value, chunks);
      hide NoneOverlong, AllFull;
    }
  }

  /** Reaching the total is the same as every answer being full, except when a too long answer carries the total there. */
  lemma TotalMeansFullExactly(answers: seq<seq<byte>>, chunks: seq<nat>)
    requires |answers| == |chunks|
    ensures (|Flatten(answers)| >= Sum(chunks) <==> AllFull(answers, chunks))
            <==> NoneOverlong(answers, chunks) || |Flatten(answers)| < Sum(chunks)
  {
    hide Sum, Flatten;
    if NoneOverlong(answers, chunks) {
      FullExactlyWhenTotal(answers, chunks);
    } else if |Flatten(answers)| < Sum(chunks) {
      assert !AllFull(answers, chunks);
    }
  }

  // ---------------------------------------------------------------- writing

  function WriteChunk(s: State, addr: S7AnyAddress, chunk: seq<byte>): (r: (State, Option<WriteError>))
    requires s.Valid()
    ensures r.0.Valid() && r.0.pduSize == s.pduSize
  {
    var (s1, done) := CtxErr(s);
    if done.Some? then (s1, Some(Failed(Io(Cancelled(done.value))))) else
    var (s2, got) := Call(s1, WriteRequest(NextRef(s1), addr, chunk));
    match got
    case Err(e) => (s2, Some(Failed(e)))
    case Ok((param, data)) =>
      match ParseWriteVarResponse(param, data)
      case Some(e) => (s2, Some(Refused(e)))
      case None => (s2, None)
  }

  function WriteChunks(s: State, area: byte, db: int, start: int, data: seq<byte>, offset: nat, chunks: seq<nat>)
    : (r: (State, Option<WriteError>))
    requires s.Valid() && offset + Sum(chunks) == |data|
    ensures r.0.Valid() && r.0.pduSize == s.pduSize
    decreases |chunks|
  {
    if chunks == [] then (s, None) else
    var n := chunks[0];
    var (s', failed) := WriteChunk(s, S7AnyAddress(area, db, start + offset, n), data[offset..offset + n]);
    if failed.Some? then (s', failed)
    else WriteChunks(s', area, db, start, data, offset + n, chunks[1..])
  }

  function WriteArea(s: State, addr: Address, data: seq<byte>): (r: (State, Option<WriteError>))
    requires s.Valid()
    ensures r.0.Valid() && r.0.pduSize == s.pduSize
  {
    match ValidateAddress(addr)
    case Some(e) => (s, Some(Invalid(e)))
    case None =>
      var (s1, done) := CtxErr(s);
      if done.Some? then (s1, Some(Failed(Io(Cancelled(done.value))))) else
      PlanIsExact(|data|, MaxWritePayload(s.pduSize));
      WriteChunks(s1, addr.area, addr.dbNumber, addr.start, data, 0, Plan(|data|, MaxWritePayload(s.pduSize)))
  }

  // ---------------------------------------------------------------- operations begun while a reply is unread

  lemma LaggedReadChunkFails(s: State, addr: S7AnyAddress)
    requires s.Valid() && s.link.Some? && s.link.value.Lag() > 0 && Echoes(s.link.value.env.serve) && StaleRefused(s)
    ensures var got := ReadChunk(s, addr).1; got.Ends? && got.status != Success && !got.keepsData
  {
    hide ReadRequest, Call;
    EndsNeverSucceeds(s, addr);
    var s1 := CtxErr(s).0;
    RequestSizes(NextRef(s1), addr, []);
    LaggedCallFails(s1, ReadRequest(NextRef(s1), [addr]));
  }

  /** A read with something to read, begun while a reply is unread, never succeeds and never returns a byte. */
  lemma LaggedReadFails(s: State, addr: Address)
    requires s.Valid() && s.link.Some? && s.link.value.Lag() > 0 && Echoes(s.link.value.env.serve) && StaleRefused(s)
    requires addr.size > 0
    ensures var r := ReadArea(s, addr).1;
            (r.Ok? <==> ValidateAddress(addr).None?) && (r.Ok? ==> r.value.status != Success && r.value.data == [])
  {
    hide ReadChunk;
    if ValidateAddress(addr).None? {
      var chunks := Plan(addr.size, MaxReadData(s.pduSize));
      LaggedReadChunkFails(s, S7AnyAddress(addr.area, addr.dbNumber, addr.start, chunks[0]));
    }
  }

  /** Nor does a write with something to write. */
  lemma LaggedWriteFails(s: State, addr: Address, data: seq<byte>)
    requires s.Valid() && s.link.Some? && s.link.value.Lag() > 0 && Echoes(s.link.value.env.serve) && StaleRefused(s)
    requires data != []
    ensures WriteArea(s, addr, data).1.Some?
  {
    hide WriteChunk;
    var (s1, done) := CtxErr(s);
    if ValidateAddress(addr).None? && done.None? {
      var chunks := Plan(|data|, MaxWritePayload(s.pduSize));
      PlanIsExact(|data|, MaxWritePayload(s.pduSize));
      var chunk := data[..chunks[0]];
      assert data[0..0 + chunks[0]] == chunk;
      LaggedWriteChunkFails(s1, S7AnyAddress(addr.area, addr.dbNumber, addr.start + 0, chunks[0]), chunk);
    }
  }

  lemma LaggedWriteChunkFails(s: State, addr: S7AnyAddress, chunk: seq<byte>)
    requires s.Valid() && s.link.Some? && s.link.value.Lag() > 0 && Echoes(s.link.value.env.serve) && StaleRefused(s)
    ensures WriteChunk(s, addr, chunk).1.Some?
  {
    hide WriteRequest, Call;
    var s1 := CtxErr(s).0;
    RequestSizes(NextRef(s1), addr, chunk);
    LaggedCallFails(s1, WriteRequest(NextRef(s1), addr, chunk));
  }
}
