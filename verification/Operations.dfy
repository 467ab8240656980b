/**
 The client's operations (client/readwrite.go, client/blocks.go, client/client.go) cut into the
 stretches between which another goroutine may be scheduled: at most one request each.
 */
module Operations {
  import opened Bytes
  import opened S7
  import opened PduReadWrite
  import opened PduBlocks
  import opened Link
  import opened Exchange
  import RW = ReadWrite
  import UP = Upload

  /** Connecting carries what its dial and handshake come to: a new connection and PDU size, or a failure. */
  datatype Op =
    | Reading(addr: RW.Address)
    | Writing(addr: RW.Address, data: seq<byte>)
    | Uploading(blockType: byte, num: int)
    | Connecting(session: Option<(Link, u16)>)
    | Closing

  datatype Outcome =
    | DidRead(r: Result<RW.ReadResult, RW.ValidationError>)
    | DidWrite(failed: Option<RW.WriteError>)
    | DidUpload(block: Result<seq<byte>, UP.UploadError>)
    | DidConnect(ok: bool)
    | DidClose

  predicate ValidOp(op: Op) {
    op.Connecting? && op.session.Some? ==> op.session.value.0.Valid() && op.session.value.0.Lag() == 0
  }

  /** The operation run on its own, by the functions that specify it. */
  function Atomic(s: State, op: Op): (r: (State, Outcome))
    requires s.Valid() && ValidOp(op)
    ensures r.0.Valid()
  {
    match op
    case Reading(addr) => var (s', r) := RW.ReadArea(s, addr); (s', DidRead(r))
    case Writing(addr, data) => var (s', r) := RW.WriteArea(s, addr, data); (s', DidWrite(r))
    case Uploading(bt, num) => var (s', r) := UP.UploadBlock(s, bt, num); (s', DidUpload(r))
    case Connecting(None) => (s, DidConnect(false))
    case Connecting(Some((link, pduSize))) => (s.(link := Some(link), pduSize := pduSize), DidConnect(true))
    case Closing => (s.(link := None, pduSize := 0), DidClose)
  }

  // ---------------------------------------------------------------- an operation, request by request

  /** Where the operation that holds the mutex has got to. */
  datatype Phase =
    | Entered(op: Op)
    | MidRead(addr: RW.Address, offset: int, chunks: seq<nat>, result: seq<byte>)
    | MidWrite(addr: RW.Address, data: seq<byte>, done: nat, chunks: seq<nat>)
    | MidUpload(id: seq<byte>, left: nat, attempts: nat, last: Error, payload: seq<byte>)
    | MustEnd(id: seq<byte>, block: Result<seq<byte>, UP.UploadError>)
    | Left(out: Outcome)
  {
    predicate Valid() {
      match this
      case Entered(op) => ValidOp(op) && Refusal(op).None?
      case MidWrite(_, data, done, chunks) => done + Sum(chunks) == |data|
      case MidUpload(_, left, _, _, _) => left > 0
      case _ => true
    }
  }

  /** What is rejected before the mutex is asked for. */
  function Refusal(op: Op): Option<Outcome> {
    match op
    case Reading(addr) => (match RW.ValidateAddress(addr) case Some(e) => Some(DidRead(Err(e))) case None => None)
    case Writing(addr, _) => (match RW.ValidateAddress(addr) case Some(e) => Some(DidWrite(Some(RW.Invalid(e)))) case None => None)
    case Uploading(_, num) => if num < 0 || num > 0xFFFF then Some(DidUpload(Err(UP.BlockNumberOutOfRange))) else None
    case _ => None
  }

  /** The next stretch of the operation, with at most one request in it. */
  function Advance(s: State, p: Phase): (r: (State, Phase))
    requires s.Valid() && p.Valid() && !p.Left?
    ensures r.0.Valid() && r.1.Valid()
  {
    match p
    case Entered(op) => Enter(s, op)
    case MidRead(addr, offset, chunks, result) =>
      if chunks == [] then
        (s, Left(DidRead(Ok(RW.ReadResult(RW.ClassifyReadOutcome(addr.size, |result|), addr.size, |result|, result, 0, None)))))
      else
        var (s', got) := RW.ReadChunk(s, S7AnyAddress(addr.area, addr.dbNumber, offset, chunks[0]));
        (match got
         case Ends(status, keeps, code, cause) =>
           (s', Left(DidRead(Ok(RW.ReadResult(status, addr.size, if keeps then |result| else 0, if keeps then result else [], code, cause)))))
         case Bytes(data) => (s', MidRead(addr, offset + chunks[0], chunks[1..], result + data)))
    case MidWrite(addr, data, done, chunks) =>
      if chunks == [] then (s, Left(DidWrite(None))) else
      var n := chunks[0];
      var (s', failed) := RW.WriteChunk(s, S7AnyAddress(addr.area, addr.dbNumber, addr.start + done, n), data[done..done + n]);
      (s', if failed.Some? then Left(DidWrite(failed)) else MidWrite(addr, data, done + n, chunks[1..]))
    case MidUpload(id, left, attempts, last, payload) => TrySegment(s, id, left, attempts, last, payload)
    case MustEnd(id, block) => (UP.Cleanup(s, id), Left(DidUpload(block)))
  }

  function Enter(s: State, op: Op): (r: (State, Phase))
    requires s.Valid() && Entered(op).Valid()
    ensures r.0.Valid() && r.1.Valid()
  {
    match op
    case Reading(addr) => (s, MidRead(addr, addr.start, RW.Plan(addr.size, RW.MaxReadData(s.pduSize)), []))
    case Writing(addr, data) =>
      var (s1, done) := CtxErr(s);
      if done.Some? then (s1, Left(DidWrite(Some(RW.Failed(Io(Cancelled(done.value))))))) else
      RW.PlanIsExact(|data|, RW.MaxWritePayload(s.pduSize));
      (s1, MidWrite(addr, data, 0, RW.Plan(|data|, RW.MaxWritePayload(s.pduSize))))
    case Uploading(bt, num) =>
      var (s1, got) := Call(s, StartUploadRequest(NextRef(s), bt, num));
      (match got
       case Err(e) => (s1, Left(DidUpload(Err(UP.StartFailed(e)))))
       case Ok((param, _)) =>
         match ParseStartUploadResponse(param)
         case None => (s1, Left(DidUpload(Err(UP.StartUnparsable))))
         case Some(id) => (s1, MidUpload(id, UP.MAX_UPLOAD_CHUNKS, UP.MAX_UPLOAD_RETRIES, NotConnected, [])))
    case _ => var (s', out) := Atomic(s, op); (s', Left(out))
  }

  function TrySegment(s: State, id: seq<byte>, left: nat, attempts: nat, last: Error, payload: seq<byte>): (r: (State, Phase))
    requires s.Valid() && left > 0
    ensures r.0.Valid() && r.1.Valid()
  {
    if attempts == 0 then (s, MustEnd(id, Err(UP.RetriesExhausted(last)))) else
    var (s1, done) := CtxErr(s);
    if done.Some? then (s1, MustEnd(id, Err(UP.ContextDone(done.value)))) else
    var (s2, got) := Call(s1, UploadRequest(NextRef(s1), id));
    match got
    case Err(e) =>
      if UP.IsUploadProtocolError(e) then (s2, MustEnd(id, Err(UP.ChunkRefused(e))))
      else (s2, MidUpload(id, left, attempts - 1, e, payload))
    case Ok((param, data)) =>
      match ParseUploadResponse(param, data)
      case None => (s2, MustEnd(id, Err(UP.ChunkUnparsable)))
      case Some(chunk) => (s2, AfterSegment(id, left, chunk, payload))
  }

  function AfterSegment(id: seq<byte>, left: nat, chunk: UploadChunk, payload: seq<byte>): (p: Phase)
    requires left > 0
    ensures p.Valid()
  {
    var all := payload + chunk.data;
    if chunk.done then MustEnd(id, if all == [] then Err(UP.NoPayload) else Ok(all))
    else if left == 1 then MustEnd(id, Err(UP.TooManyChunks))
    else MidUpload(id, left - 1, UP.MAX_UPLOAD_RETRIES, NotConnected, all)
  }

  /** What is left of an operation, run on its own from where it has got to. */
  function Rest(s: State, p: Phase): (r: (State, Outcome))
    requires s.Valid() && p.Valid()
    ensures r.0.Valid()
  {
    match p
    case Entered(op) => Atomic(s, op)
    case MidRead(addr, offset, chunks, result) =>
      var (s', r) := RW.ReadChunks(s, addr.area, addr.dbNumber, offset, chunks, result, addr.size); (s', DidRead(Ok(r)))
    case MidWrite(addr, data, done, chunks) =>
      var (s', r) := RW.WriteChunks(s, addr.area, addr.dbNumber, addr.start, data, done, chunks); (s', DidWrite(r))
    case MidUpload(id, left, attempts, last, payload) =>
      var (s1, got) := UP.TryChunk(s, id, attempts, last);
      (match got
       case Err(e) => (UP.Cleanup(s1, id), DidUpload(Err(e)))
       case Ok(chunk) => AfterChunk(s1, id, left, chunk, payload))
    case MustEnd(id, block) => (UP.Cleanup(s, id), DidUpload(block))
    case Left(out) => (s, out)
  }

  function AfterChunk(s: State, id: seq<byte>, left: nat, chunk: UploadChunk, payload: seq<byte>): (r: (State, Outcome))
    requires s.Valid() && left > 0
    ensures r.0.Valid()
  {
    var all := payload + chunk.data;
    if chunk.done then (UP.Cleanup(s, id), DidUpload(if all == [] then Err(UP.NoPayload) else Ok(all)))
    else
      var (s', r) := UP.UploadChunks(s, id, left - 1, all);
      (UP.Cleanup(s', id), DidUpload(r))
  }

  /** A stretch of an operation changes nothing about how the whole operation ends. */
  lemma AdvanceKeepsRest(s: State, p: Phase)
    requires s.Valid() && p.Valid() && !p.Left?
    ensures Rest(Advance(s, p).0, Advance(s, p).1) == Rest(s, p)
  {
    hide RW.ReadChunk, RW.WriteChunk, UP.Cleanup, Call;
    match p
    case Entered(op) => EnterKeepsRest(s, op);
    case MidRead(addr, offset, chunks, result) => hide UP.UploadChunks, UP.TryChunk;
    case MidWrite(addr, data, done, chunks) => hide UP.UploadChunks, UP.TryChunk;
    case MidUpload(id, left, attempts, last, payload) => SegmentKeepsRest(s, id, left, attempts, last, payload);
    case MustEnd(id, block) =>
  }

  lemma EnterKeepsRest(s: State, op: Op)
    requires s.Valid() && Entered(op).Valid()
    ensures Rest(Enter(s, op).0, Enter(s, op).1) == Atomic(s, op)
  {
    hide RW.ReadChunks, RW.WriteChunks, UP.Cleanup, Call, UP.UploadChunks, UP.TryChunk, RW.Plan;
    if op.Uploading? {
      var (s1, got) := Call(s, StartUploadRequest(NextRef(s), op.blockType, op.num));
      if got.Ok? && ParseStartUploadResponse(got.value.0).Some? {
        ChunkThenRest(s1, ParseStartUploadResponse(got.value.0).value, UP.MAX_UPLOAD_CHUNKS, []);
      }
    }
  }

  /** From the first attempt at a segment on, what is left is the upload loop and the end-upload. */
  lemma ChunkThenRest(s: State, id: seq<byte>, left: nat, payload: seq<byte>)
    requires s.Valid() && left > 0
    ensures var (s', r) := UP.UploadChunks(s, id, left, payload);
            Rest(s, MidUpload(id, left, UP.MAX_UPLOAD_RETRIES, NotConnected, payload)) == (UP.Cleanup(s', id), DidUpload(r))
  {
    hide UP.TryChunk, UP.Cleanup;
  }

  lemma SegmentKeepsRest(s: State, id: seq<byte>, left: nat, attempts: nat, last: Error, payload: seq<byte>)
    requires s.Valid() && left > 0
    ensures var (s', p') := TrySegment(s, id, left, attempts, last, payload);
            Rest(s', p') == Rest(s, MidUpload(id, left, attempts, last, payload))
  {
    hide UP.Cleanup, Call, UP.UploadChunks, ParseUploadResponse, UP.IsUploadProtocolError;
    var (s1, got) := UP.TryChunk(s, id, attempts, last);
    if got.Ok? {
      SegmentLeads(s1, id, left, got.value, payload);
    }
  }

  lemma SegmentLeads(s: State, id: seq<byte>, left: nat, chunk: UploadChunk, payload: seq<byte>)
    requires s.Valid() && left > 0
    ensures Rest(s, AfterSegment(id, left, chunk, payload)) == AfterChunk(s, id, left, chunk, payload)
  {
    hide UP.TryChunk, UP.Cleanup;
    if !chunk.done && left > 1 {
      ChunkThenRest(s, id, left - 1, payload + chunk.data);
    }
  }

  // ---------------------------------------------------------------- how long an operation can take

  /** A bound on the stretches of a whole operation: a plan has no more chunks than bytes. */
  function Cost(op: Op): nat {
    match op
    case Reading(addr) => if addr.size <= 0 then 2 else addr.size + 2
    case Writing(_, data) => |data| + 2
    case Uploading(_, _) => (UP.MAX_UPLOAD_CHUNKS + 2) * (UP.MAX_UPLOAD_RETRIES + 1)
    case _ => 1
  }

  function Stretches(p: Phase): nat {
    match p
    case Entered(op) => Cost(op)
    case MidRead(_, _, chunks, _) => |chunks| + 1
    case MidWrite(_, _, _, chunks) => |chunks| + 1
    case MidUpload(_, left, attempts, _, _) => (left + 1) * (UP.MAX_UPLOAD_RETRIES + 1) + attempts
    case MustEnd(_, _) => 1
    case Left(_) => 0
  }

  lemma {:induction false} NoMoreChunksThanBytes(chunks: seq<nat>)
    requires forall c :: c in chunks ==> c > 0
    ensures |chunks| <= Sum(chunks)
  {
    if chunks != [] {
      assert forall c :: c in chunks[1..] ==> c in chunks;
      assert chunks[0] in chunks;
      NoMoreChunksThanBytes(chunks[1..]);
    }
  }

  lemma PlanIsShort(total: int, limit: int)
    requires limit >= 1
    ensures |RW.Plan(total, limit)| <= if total <= 0 then 0 else total
  {
    RW.PlanIsExact(total, limit);
    NoMoreChunksThanBytes(RW.Plan(total, limit));
  }

  /** Every stretch brings the operation nearer to its end. */
  lemma StretchesFall(s: State, p: Phase)
    requires s.Valid() && p.Valid() && !p.Left?
    ensures Stretches(Advance(s, p).1) < Stretches(p)
  {
    hide RW.ReadChunk, RW.WriteChunk, UP.Cleanup, Call, RW.Plan, ParseUploadResponse, ParseStartUploadResponse;
    if p.Entered? && p.op.Reading? {
      PlanIsShort(p.op.addr.size, RW.MaxReadData(s.pduSize));
    }
    if p.Entered? && p.op.Writing? {
      PlanIsShort(|p.op.data|, RW.MaxWritePayload(s.pduSize));
    }
  }

  // ---------------------------------------------------------------- one PDU size from plan to last chunk

  predicate Suffix(chunks: seq<nat>, plan: seq<nat>) {
    |chunks| <= |plan| && chunks == plan[|plan| - |chunks|..]
  }

  /** The chunks still to come are the rest of the plan for this PDU size. */
  ghost predicate Planned(op: Op, p: Phase, pduSize: nat) {
    match p
    case Entered(o) => o == op
    case MidRead(addr, _, chunks, _) => op == Reading(addr) && Suffix(chunks, RW.Plan(addr.size, RW.MaxReadData(pduSize)))
    case MidWrite(addr, data, _, chunks) => op == Writing(addr, data) && Suffix(chunks, RW.Plan(|data|, RW.MaxWritePayload(pduSize)))
    case MidUpload(_, _, _, _, _) => op.Uploading?
    case MustEnd(_, _) => op.Uploading?
    case Left(_) => true
  }

  lemma AdvanceKeepsPlan(s: State, op: Op, p: Phase)
    requires s.Valid() && p.Valid() && !p.Left? && Planned(op, p, s.pduSize)
    ensures Planned(op, Advance(s, p).1, s.pduSize)
    ensures op.Connecting? || op.Closing? || Advance(s, p).0.pduSize == s.pduSize
  {
    hide RW.ReadChunk, RW.WriteChunk, Call, RW.Plan, ParseUploadResponse, ParseStartUploadResponse;
  }

  // ---------------------------------------------------------------- what an operation does to the wire

  /** Connecting and closing replace the connection; everything else keeps it. */
  predicate Replaces(p: Phase) {
    p.Entered? && ((p.op.Connecting? && p.op.session.Some?) || p.op.Closing?)
  }

  /** The same connection with the same PDU size, and maybe more frames on its wire. */
  ghost predicate Grows(s: State, s': State) {
    && (s.link.Some? <==> s'.link.Some?) && s'.pduSize == s.pduSize
    && (s.link.Some? ==> s'.link.value.env == s.link.value.env && s.link.value.sent <= s'.link.value.sent)
  }

  lemma CallGrows(s: State, req: seq<byte>)
    requires s.Valid()
    ensures Grows(s, Call(s, req).0)
  {
  }

  lemma AdvanceGrows(s: State, p: Phase)
    requires s.Valid() && p.Valid() && !p.Left? && !Replaces(p)
    ensures Grows(s, Advance(s, p).0)
  {
    hide Call, ReadRequest, WriteRequest, SessionRequest, StartUploadRequest, RW.Plan;
    var s1 := CtxErr(s).0;
    match p
    case Entered(op) =>
      if op.Uploading? {
        CallGrows(s, StartUploadRequest(NextRef(s), op.blockType, op.num));
      }
    case MidRead(addr, offset, chunks, _) =>
      if chunks != [] {
        CallGrows(s1, ReadRequest(NextRef(s1), [S7AnyAddress(addr.area, addr.dbNumber, offset, chunks[0])]));
      }
    case MidWrite(addr, data, done, chunks) =>
      if chunks != [] {
        CallGrows(s1, WriteRequest(NextRef(s1), S7AnyAddress(addr.area, addr.dbNumber, addr.start + done, chunks[0]), data[done..done + chunks[0]]));
      }
    case MidUpload(id, _, _, _, _) => CallGrows(s1, UploadRequest(NextRef(s1), id));
    case MustEnd(id, _) => CallGrows(s, EndUploadRequest(NextRef(s), id));
  }

  /** Between its start and its end-upload, an upload has put nothing on the wire but the start and its own segment requests. */
  ghost predicate Trail(before: State, op: Op, p: Phase, s: State)
    requires before.Valid()
  {
    p.MidUpload? || p.MustEnd? ==>
      && op.Uploading? && 0 <= op.num <= 0xFFFF && before.link.Some? && s.link.Some?
      && UP.SessionId(before, op.blockType, op.num) == Some(p.id)
      && UP.FramesSince(before.link.value.sent + [DT(StartUploadRequest(NextRef(before), op.blockType, op.num))], s.link.value.sent, p.id)
  }

  lemma EnterTrail(s: State, op: Op)
    requires s.Valid() && Entered(op).Valid()
    ensures Trail(s, op, Enter(s, op).1, Enter(s, op).0)
  {
    hide StartUploadRequest, RW.Plan;
  }

  lemma AdvanceKeepsTrail(before: State, s: State, op: Op, p: Phase)
    requires before.Valid() && s.Valid() && p.Valid() && !p.Left? && Trail(before, op, p, s)
    requires p.Entered? ==> before == s && p.op == op
    ensures Trail(before, op, Advance(s, p).1, Advance(s, p).0)
  {
    hide Call, UP.FramesSince, SessionRequest, StartUploadRequest, Enter, RW.ReadChunk, RW.WriteChunk, ParseUploadResponse;
    match p
    case Entered(_) => EnterTrail(s, op);
    case MidUpload(id, _, _, _, _) =>
      var s1 := CtxErr(s).0;
      UP.UploadCallFrames(s1, id);
      UP.FramesSinceTrans(before.link.value.sent + [DT(StartUploadRequest(NextRef(before), op.blockType, op.num))],
                          s.link.value.sent, Call(s1, UploadRequest(NextRef(s1), id)).0.link.value.sent, id);
    case _ =>
  }

  // ---------------------------------------------------------------- unread replies across operations

  /**
   The bookkeeping of unanswered requests goes through for this state: the oldest one was issued as number `base`
   or later, and (if `owing`) there is one.
   */
  ghost predicate Tracked(s: State, base: nat, owing: bool) {
    && s.Valid() && (owing ==> s.link.Some?)
    && (s.link.Some? ==> exists stamps :: TrackedBy(s, base, owing, stamps))
  }

  ghost predicate TrackedBy(s: State, base: nat, owing: bool, stamps: seq<nat>)
    requires s.link.Some?
  {
    Stamped(s.link.value, stamps, s.issued) && (stamps != [] ==> stamps[0] >= base) && (owing ==> stamps != [])
  }

  lemma CallKeepsTracked(s: State, req: seq<byte>, base: nat, owing: bool)
    requires Tracked(s, base, owing) && Carries(DT(req), NextRef(s)) && base <= s.issued + 1
    ensures Tracked(Call(s, req).0, base, owing)
    ensures Call(s, req).0.link.Some? && s.link.Some? ==> Call(s, req).0.link.value.env == s.link.value.env
  {
    hide SendReceive, Carries, TrackedBy;
    if s.link.Some? {
      var stamps :| TrackedBy(s, base, owing, stamps);
      var after := CallTrackedBy(s, req, base, owing, stamps);
    }
  }

  lemma CallTrackedBy(s: State, req: seq<byte>, base: nat, owing: bool, stamps: seq<nat>) returns (after: seq<nat>)
    requires s.Valid() && s.link.Some? && TrackedBy(s, base, owing, stamps)
    requires Carries(DT(req), NextRef(s)) && base <= s.issued + 1
    ensures Call(s, req).0.link.Some? && TrackedBy(Call(s, req).0, base, owing, after)
  {
    hide Interpret, Carries;
    var l := s.link.value;
    var l' := SendReceive(l, s.pduSize, req, NextRef(s)).0;
    StampsKept(l, s.pduSize, req, stamps, s.issued);
    SentAtMostOne(l, s.pduSize, req, NextRef(s));
    StampsStay(l, l', stamps, s.issued, base, owing);
    after := StampsAfter(l, l', stamps, s.issued + 1);
    hide SendReceive, Stamped, StampsAfter;
    assert Call(s, req).0.link == Some(l');
  }

  lemma SentAtMostOne(l: Link, pduSize: nat, req: seq<byte>, ref: u16)
    requires l.Valid()
    ensures var l' := SendReceive(l, pduSize, req, ref).0;
            && |l.sent| <= |l'.sent| <= |l.sent| + 1 && l.taken <= l'.taken <= l.taken + 1 && (l'.taken > l.taken ==> |l'.sent| > |l.sent|)
  {
    hide Interpret;
  }

  lemma StampsStay(l: Link, l': Link, stamps: seq<nat>, issued: nat, base: nat, owing: bool)
    requires Stamped(l, stamps, issued) && (stamps != [] ==> stamps[0] >= base) && (owing ==> stamps != []) && base <= issued + 1
    requires |l.sent| <= |l'.sent| <= |l.sent| + 1 && l.taken <= l'.taken <= l.taken + 1 && (l'.taken > l.taken ==> |l'.sent| > |l.sent|)
    ensures var after := StampsAfter(l, l', stamps, issued + 1);
            (after != [] ==> after[0] >= base) && (owing ==> after != [])
  {
    hide Carries;
  }

  /** One ctx.Err() check changes nothing of it. */
  lemma CheckKeepsTracked(s: State, base: nat, owing: bool)
    requires Tracked(s, base, owing)
    ensures Tracked(CtxErr(s).0, base, owing)
  {
    if s.link.Some? {
      var stamps :| TrackedBy(s, base, owing, stamps);
      assert TrackedBy(CtxErr(s).0, base, owing, stamps);
    }
  }

  lemma RequestsCarry(s: State, addr: S7AnyAddress, chunk: seq<byte>, id: seq<byte>, blockType: byte, num: nat)
    ensures Carries(DT(ReadRequest(NextRef(s), [addr])), NextRef(s))
    ensures Carries(DT(WriteRequest(NextRef(s), addr, chunk)), NextRef(s))
    ensures Carries(DT(UploadRequest(NextRef(s), id)), NextRef(s))
    ensures Carries(DT(EndUploadRequest(NextRef(s), id)), NextRef(s))
    ensures Carries(DT(StartUploadRequest(NextRef(s), blockType, num)), NextRef(s))
  {
    RequestSizes(NextRef(s), addr, chunk);
    RequestsCarryTheirRef(NextRef(s), blockType, num, FUNC_UPLOAD, id);
    RequestsCarryTheirRef(NextRef(s), blockType, num, FUNC_UPLOAD_END, id);
    UP.RequestLength(FUNC_UPLOAD, NextRef(s), id);
    UP.RequestLength(FUNC_UPLOAD_END, NextRef(s), id);
    UP.StartLength(NextRef(s), blockType, num);
  }

  ghost predicate SameLine(s: State, s': State) {
    s'.issued >= s.issued && (s.link.Some? <==> s'.link.Some?) && (s.link.Some? ==> s'.link.value.env == s.link.value.env)
  }

  /** As long as the connection is not replaced, every stretch of every operation keeps the bookkeeping. */
  lemma AdvanceKeepsTracked(s: State, p: Phase, base: nat, owing: bool)
    requires Tracked(s, base, owing) && p.Valid() && !p.Left? && !Replaces(p) && base <= s.issued + 1
    ensures Tracked(Advance(s, p).0, base, owing) && SameLine(s, Advance(s, p).0)
  {
    hide Call, Tracked, Carries, ReadRequest, WriteRequest, SessionRequest, StartUploadRequest, RW.Plan;
    CheckKeepsTracked(s, base, owing);
    assert s.Valid() by {
      TrackedIsValid(s, base, owing);
    }
    var s1 := CtxErr(s).0;
    var none := S7AnyAddress(0, 0, 0, 0);
    match p
    case Entered(op) =>
      if op.Uploading? {
        RequestsCarry(s, none, [], [], op.blockType, op.num);
        CallKeepsTracked(s, StartUploadRequest(NextRef(s), op.blockType, op.num), base, owing);
      }
    case MidRead(addr, offset, chunks, _) =>
      if chunks != [] {
        var a := S7AnyAddress(addr.area, addr.dbNumber, offset, chunks[0]);
        RequestsCarry(s1, a, [], [], 0, 0);
        CallKeepsTracked(s1, ReadRequest(NextRef(s1), [a]), base, owing);
      }
    case MidWrite(addr, data, done, chunks) =>
      if chunks != [] {
        var a, chunk := S7AnyAddress(addr.area, addr.dbNumber, addr.start + done, chunks[0]), data[done..done + chunks[0]];
        RequestsCarry(s1, a, chunk, [], 0, 0);
        CallKeepsTracked(s1, WriteRequest(NextRef(s1), a, chunk), base, owing);
      }
    case MidUpload(id, _, _, _, _) =>
      RequestsCarry(s1, none, [], id, 0, 0);
      CallKeepsTracked(s1, UploadRequest(NextRef(s1), id), base, owing);
    case MustEnd(id, _) =>
      RequestsCarry(s, none, [], id, 0, 0);
      CallKeepsTracked(s, EndUploadRequest(NextRef(s), id), base, owing);
  }

  lemma TrackedIsValid(s: State, base: nat, owing: bool)
    requires Tracked(s, base, owing)
    ensures s.Valid()
  {
  }

  /** A new connection owes nothing, and a closed one cannot. */
  lemma ReplacementIsTracked(s: State, p: Phase)
    requires s.Valid() && p.Valid() && Replaces(p)
    ensures Tracked(Advance(s, p).0, 0, false)
  {
    var s' := Advance(s, p).0;
    if s'.link.Some? {
      assert TrackedBy(s', 0, false, []);
    }
  }

  /** An operation that has something to transfer. */
  predicate Transfers(op: Op) {
    match op
    case Reading(addr) => addr.size > 0
    case Writing(_, data) => data != []
    case Uploading(_, _) => true
    case _ => false
  }

  /** It came to nothing: no successful read and no byte read, no write reported as done, no block. */
  predicate CameToNothing(out: Outcome) {
    match out
    case DidRead(r) => r.Ok? ==> r.value.status != RW.Success && r.value.data == []
    case DidWrite(failed) => failed.Some?
    case DidUpload(block) => block.Err?
    case _ => false
  }

  /** Begun while a reply is unread, inside the window and with a next reference that is not 0, every transfer comes to nothing. */
  lemma OwingTransferFails(s: State, op: Op, base: nat)
    requires Tracked(s, base, true) && Echoes(s.link.value.env.serve) && ValidOp(op) && Transfers(op)
    requires s.issued + 4 - base < 0x1_0000 && NextRef(s) != 0
    ensures CameToNothing(Atomic(s, op).1)
  {
    var stamps :| TrackedBy(s, base, true, stamps);
    assert Exchange.Window(stamps, s.issued + 1) && StaleRefused(s) && s.link.value.Lag() > 0;
    match op
    case Reading(addr) =>
      hide RW.ReadArea;
      RW.LaggedReadFails(s, addr);
    case Writing(addr, data) =>
      hide RW.WriteArea;
      RW.LaggedWriteFails(s, addr, data);
    case Uploading(bt, num) =>
      hide UP.UploadBlock;
      UP.LaggedUploadFails(s, bt, num, stamps);
  }
}
