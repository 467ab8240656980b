/** client/blocks.go: UploadBlock, with its bounded retries and deferred end-upload. */
module Upload {
  import opened Bytes
  import opened S7
  import opened Link
  import opened Exchange
  import opened PduBlocks
  import H = Handshake

  const MAX_UPLOAD_CHUNKS := 4096
  const MAX_UPLOAD_RETRIES := 3

  datatype UploadError =
    | BlockNumberOutOfRange
    | StartFailed(error: Error)
    | StartUnparsable
    | ContextDone(ctx: CtxError)
    | ChunkRefused(error: Error)
    | ChunkUnparsable
    | RetriesExhausted(last: Error)
    | TooManyChunks
    | NoPayload

  function IsUploadProtocolError(e: Error): bool {
    e.EncodeCOTP? || e.DecodeCOTP? || e.NotDataTPDU? || e.ParseHeader? || e.PDURefMismatch? || e.S7Error? || e.ShortPayload?
  }

  /** The retry loop for one chunk, with `left` attempts to go; `last` is the error of the attempt before. */
  function TryChunk(s: State, id: seq<byte>, left: nat, last: Error): (r: (State, Result<UploadChunk, UploadError>))
    requires s.Valid()
    ensures r.0.Valid() && (r.0.link.Some? <==> s.link.Some?)
    decreases left
  {
    if left == 0 then (s, Err(RetriesExhausted(last))) else
    var (s1, done) := CtxErr(s);
    if done.Some? then (s1, Err(ContextDone(done.value))) else
    var (s2, got) := Call(s1, UploadRequest(NextRef(s1), id));
    match got
    case Err(e) => if IsUploadProtocolError(e) then (s2, Err(ChunkRefused(e))) else TryChunk(s2, id, left - 1, e)
    case Ok((param, data)) =>
      match ParseUploadResponse(param, data)
      case None => (s2, Err(ChunkUnparsable))
      case Some(chunk) => (s2, Ok(chunk))
  }

  function UploadChunks(s: State, id: seq<byte>, left: nat, payload: seq<byte>): (r: (State, Result<seq<byte>, UploadError>))
    requires s.Valid()
    ensures r.0.Valid() && (r.0.link.Some? <==> s.link.Some?)
    decreases left
  {
    if left == 0 then (s, Err(TooManyChunks)) else
    var (s1, got) := TryChunk(s, id, MAX_UPLOAD_RETRIES, NotConnected);
    match got
    case Err(e) => (s1, Err(e))
    case Ok(chunk) =>
      var all := payload + chunk.data;
      if !chunk.done then UploadChunks(s1, id, left - 1, all)
      else if all == [] then (s1, Err(NoPayload))
      else (s1, Ok(all))
  }

  /** The deferred end-upload: sent once, its outcome ignored. */
  function Cleanup(s: State, id: seq<byte>): (s': State)
    requires s.Valid()
    ensures s'.Valid()
  {
    Call(s, EndUploadRequest(NextRef(s), id)).0
  }

  function UploadBlock(s: State, blockType: byte, num: int): (r: (State, Result<seq<byte>, UploadError>))
    requires s.Valid()
    ensures r.0.Valid()
  {
    if num < 0 || num > 0xFFFF then (s, Err(BlockNumberOutOfRange)) else
    var (s1, got) := Call(s, StartUploadRequest(NextRef(s), blockType, num));
    match got
    case Err(e) => (s1, Err(StartFailed(e)))
    case Ok((param, _)) =>
      match ParseStartUploadResponse(param)
      case None => (s1, Err(StartUnparsable))
      case Some(id) =>
        var (s2, r) := UploadChunks(s1, id, MAX_UPLOAD_CHUNKS, []);
        (Cleanup(s2, id), r)
  }

  // ---------------------------------------------------------------- which replies the chunks come from

  /** The upload segment a reply carries, whatever its reference. */
  function SegmentIn(reply: Reply): Option<UploadChunk> {
    match Interpret(reply, 0)
    case Err(_) => None
    case Ok((param, data)) => ParseUploadResponse(param, data)
  }

  lemma AcceptedCarriesSegment(reply: Reply, ref: u16)
    ensures Interpret(reply, ref).Ok? ==> Interpret(reply, 0) == Interpret(reply, ref)
  {
  }

  predicate IsUploadFrame(t: Tpdu, id: seq<byte>) {
    t.DT? && |t.userData| >= 6 && t == DT(UploadRequest(GetU16(t.userData, 4), id))
  }

  ghost predicate AllUploads(frames: seq<Tpdu>, id: seq<byte>) {
    forall t :: t in frames ==> IsUploadFrame(t, id)
  }

  /** What was sent between these two points asks for segments of one session. */
  ghost predicate FramesSince(h: seq<Tpdu>, sent: seq<Tpdu>, id: seq<byte>) {
    h <= sent && AllUploads(sent[|h|..], id)
  }

  lemma FramesSinceTrans(a: seq<Tpdu>, b: seq<Tpdu>, c: seq<Tpdu>, id: seq<byte>)
    requires FramesSince(a, b, id) && FramesSince(b, c, id)
    ensures FramesSince(a, c, id)
  {
    assert c[|a|..] == b[|a|..] + c[|b|..];
  }

  lemma UploadCallFrames(s: State, id: seq<byte>)
    requires s.Valid() && s.link.Some?
    ensures var s' := Call(s, UploadRequest(NextRef(s), id)).0;
            s'.link.Some? && FramesSince(s.link.value.sent, s'.link.value.sent, id)
  {
    UploadCall(s, id);
  }

  /** l' continues l, and everything sent in between asks for segments of one session. */
  ghost predicate Continues(l: Link, l': Link, id: seq<byte>) {
    && l.Valid() && l'.Valid() && l'.env == l.env && l.sent <= l'.sent && l.taken <= l'.taken && l'.Lag() >= l.Lag()
    && AllUploads(l'.sent[|l.sent|..], id)
  }

  lemma ContinuesTrans(a: Link, b: Link, c: Link, id: seq<byte>)
    requires Continues(a, b, id) && Continues(b, c, id)
    ensures Continues(a, c, id)
  {
    assert c.sent[|a.sent|..] == b.sent[|a.sent|..] + c.sent[|b.sent|..];
  }

  lemma UploadCall(s: State, id: seq<byte>)
    requires s.Valid() && s.link.Some?
    ensures var (s', got) := Call(s, UploadRequest(NextRef(s), id));
            && Continues(s.link.value, s'.link.value, id)
            && (got.Ok? ==> s'.link.value.taken == s.link.value.taken + 1
                            && got == Interpret(s'.link.value.ReplyAt(s.link.value.taken), 0))
            && (s'.link.value.taken > s.link.value.taken && got.Err? ==> IsUploadProtocolError(got.error))
  {
    hide SessionRequest;
    var req := UploadRequest(NextRef(s), id);
    RequestsCarryTheirRef(NextRef(s), 0, 0, FUNC_UPLOAD, id);
    var (s', got) := Call(s, req);
    var l, l' := s.link.value, s'.link.value;
    RequestLength(FUNC_UPLOAD, NextRef(s), id);
    assert IsUploadFrame(DT(req), id);
    assert l'.sent[|l.sent|..] == [] || l'.sent[|l.sent|..] == [DT(req)];
    if got.Ok? {
      AcceptedCarriesSegment(l'.ReplyAt(l.taken), NextRef(s));
    }
  }

  lemma RequestLength(func: byte, ref: u16, id: seq<byte>)
    ensures |SessionRequest(func, ref, id)| >= S7_HEADER_SIZE
  {
  }

  /** A chunk accepted after any number of retries is the oldest unread reply: a refused or unparsable reply is never retried past. */
  lemma {:induction false} TryChunkTakesNext(s: State, id: seq<byte>, left: nat, last: Error)
    requires s.Valid() && s.link.Some?
    ensures var (s', r) := TryChunk(s, id, left, last);
            && Continues(s.link.value, s'.link.value, id)
            && (r.Ok? ==>
                  && s'.link.value.taken == s.link.value.taken + 1
                  && SegmentIn(s'.link.value.ReplyAt(s.link.value.taken)) == Some(r.value))
    decreases left
  {
    hide Interpret, UploadRequest, ParseUploadResponse, Call;
    if left > 0 {
      var (s1, done) := CtxErr(s);
      if done.None? {
        UploadCall(s1, id);
        var (s2, got) := Call(s1, UploadRequest(NextRef(s1), id));
        if got.Err? && !IsUploadProtocolError(got.error) {
          TryChunkTakesNext(s2, id, left - 1, got.error);
          ContinuesTrans(s.link.value, s2.link.value, TryChunk(s2, id, left - 1, got.error).0.link.value, id);
        }
      }
    }
  }

  /** Replies number first .. first + n of a connection are segments, only the last of them marked done; data is their concatenation. */
  ghost predicate InOrder(l: Link, first: nat, n: nat, data: seq<byte>)
    decreases n
  {
    && n > 0 && first + n <= |l.sent|
    && SegmentIn(l.ReplyAt(first)).Some?
    && var chunk := SegmentIn(l.ReplyAt(first)).value;
    if n == 1 then chunk.done && data == chunk.data
    else !chunk.done && chunk.data <= data && InOrder(l, first + 1, n - 1, data[|chunk.data|..])
  }

  lemma {:induction false} UploadChunksInOrder(s: State, id: seq<byte>, left: nat, payload: seq<byte>) returns (n: nat)
    requires s.Valid() && s.link.Some?
    ensures var (s', r) := UploadChunks(s, id, left, payload);
            && Continues(s.link.value, s'.link.value, id)
            && (r.Ok? ==>
                  && n <= left && payload <= r.value && s'.link.value.taken == s.link.value.taken + n
                  && InOrder(s'.link.value, s.link.value.taken, n, r.value[|payload|..]))
    decreases left
  {
    hide TryChunk, SegmentIn;
    n := 0;
    if left > 0 {
      TryChunkTakesNext(s, id, MAX_UPLOAD_RETRIES, NotConnected);
      var (s1, got) := TryChunk(s, id, MAX_UPLOAD_RETRIES, NotConnected);
      if got.Ok? {
        var chunk := got.value;
        var l, l1 := s.link.value, s1.link.value;
        var (s', r) := UploadChunks(s, id, left, payload);
        if chunk.done {
          n := 1;
          assert (payload + chunk.data)[|payload|..] == chunk.data;
        } else {
          n := UploadChunksInOrder(s1, id, left - 1, payload + chunk.data);
          var l' := s'.link.value;
          ContinuesTrans(l, l1, l', id);
          if r.Ok? {
            RepliesStay(l1, l', l.taken);
            var data := r.value[|payload|..];
            assert chunk.data <= data && data[|chunk.data|..] == r.value[|payload + chunk.data|..];
            n := n + 1;
          }
        }
      }
    }
  }

  // ---------------------------------------------------------------- an upload that returns data

  /**
   Exactness. Whatever sends fail and whatever replies go unread: if the connection owed no reply
   when the upload began and the upload returns data, then the data is the concatenation, in order,
   of the device's answers to this session's first n upload requests, of which only the n-th was
   marked done. Nothing is missing, repeated, or foreign. References play no part in this.
   */
  lemma UploadIsExact(s: State, blockType: byte, num: nat) returns (n: nat, id: seq<byte>, l': Link)
    requires s.Valid() && s.link.Some? && s.link.value.Lag() == 0
    ensures UploadBlock(s, blockType, num).1.Ok? ==>
              var l := s.link.value;
              && SessionId(s, blockType, num) == Some(id) && n <= MAX_UPLOAD_CHUNKS
              && l'.Valid() && l'.env == l.env && |l'.sent| >= |l.sent| + 1 + n
              && l'.sent[..|l.sent| + 1] == l.sent + [DT(StartUploadRequest(NextRef(s), blockType, num))]
              && AllUploads(l'.sent[|l.sent| + 1..], id)
              && InOrder(l', |l.sent| + 1, n, UploadBlock(s, blockType, num).1.value)
              && UploadBlock(s, blockType, num).0.link.Some? && l'.sent <= UploadBlock(s, blockType, num).0.link.value.sent
  {
    hide UploadChunks, InOrder, StartUploadRequest;
    var req := StartUploadRequest(NextRef(s), blockType, num);
    var (s1, got) := Call(s, req);
    n, id, l' := 0, [], s.link.value;
    if got.Ok? && ParseStartUploadResponse(got.value.0).Some? {
      id := ParseStartUploadResponse(got.value.0).value;
      n := UploadChunksInOrder(s1, id, MAX_UPLOAD_CHUNKS, []);
      var (s2, r) := UploadChunks(s1, id, MAX_UPLOAD_CHUNKS, []);
      l' := s2.link.value;
      if r.Ok? {
        assert l'.sent[..|s.link.value.sent| + 1] == s1.link.value.sent;
        var none: seq<byte> := [];
        assert r.value[|none|..] == r.value;
      }
    }
  }

  // ---------------------------------------------------------------- against a device that holds segments

  /** After the frames h, the device answers the session's j-th upload request with its j-th segment. */
  ghost predicate ServesSegments(serve: seq<Tpdu> -> Reply, h: seq<Tpdu>, id: seq<byte>, segments: seq<UploadChunk>) {
    forall us: seq<Tpdu> :: AllUploads(us, id) && 0 < |us| <= |segments| ==> SegmentIn(serve(h + us)) == Some(segments[|us| - 1])
  }

  function DataOf(segments: seq<UploadChunk>): seq<byte> {
    if segments == [] then [] else segments[0].data + DataOf(segments[1..])
  }

  /** Of the segments from number k on, number m - 1 is the first marked done. */
  ghost predicate FirstDone(segments: seq<UploadChunk>, k: nat, m: nat) {
    k < m <= |segments| && segments[m - 1].done && forall j :: k <= j < m - 1 ==> !segments[j].done
  }

  lemma ReplyIsSegment(l: Link, h: seq<Tpdu>, id: seq<byte>, segments: seq<UploadChunk>, k: nat)
    requires l.Valid() && h <= l.sent && AllUploads(l.sent[|h|..], id) && ServesSegments(l.env.serve, h, id, segments)
    requires |h| + k < |l.sent| && k < |segments|
    ensures SegmentIn(l.ReplyAt(|h| + k)) == Some(segments[k])
  {
    hide SegmentIn;
    var us := l.sent[|h|..|h| + k + 1];
    assert l.sent[..|h| + k + 1] == h + us;
    assert us <= l.sent[|h|..];
  }

  lemma {:induction false} InOrderIsSegments(
      l: Link, h: seq<Tpdu>, id: seq<byte>, segments: seq<UploadChunk>, k: nat, m: nat, n: nat, data: seq<byte>)
    requires l.Valid() && h <= l.sent && AllUploads(l.sent[|h|..], id) && ServesSegments(l.env.serve, h, id, segments)
    requires InOrder(l, |h| + k, n, data) && FirstDone(segments, k, m)
    ensures k + n == m && data == DataOf(segments[k..m])
    decreases n
  {
    hide SegmentIn, ServesSegments, AllUploads;
    ReplyIsSegment(l, h, id, segments, k);
    if n == 1 {
      assert segments[k..m] == [segments[k]];
      assert DataOf([segments[k]]) == segments[k].data + [] by {
        assert [segments[k]][1..] == [];
      }
    } else {
      InOrderIsSegments(l, h, id, segments, k + 1, m, n - 1, data[|segments[k].data|..]);
      assert segments[k..m][1..] == segments[k + 1..m];
      assert data == segments[k].data + data[|segments[k].data|..];
    }
  }

  /** The session id the device's answer to the start request names. */
  function SessionId(s: State, blockType: byte, num: nat): Option<seq<byte>>
    requires s.Valid()
  {
    match Call(s, StartUploadRequest(NextRef(s), blockType, num)).1
    case Err(_) => None
    case Ok((param, _)) => ParseStartUploadResponse(param)
  }

  /** Whatever session the start request opens, the device serves it these segments. */
  ghost predicate ServesBlock(s: State, blockType: byte, num: nat, segments: seq<UploadChunk>)
    requires s.Valid() && s.link.Some?
  {
    SessionId(s, blockType, num).Some? ==>
      ServesSegments(s.link.value.env.serve,
                     s.link.value.sent + [DT(StartUploadRequest(NextRef(s), blockType, num))],
                     SessionId(s, blockType, num).value, segments)
  }

  /** So from a device that serves a block in segments, the data is the segments up to and including the first done one. */
  lemma UploadReturnsTheBlock(s: State, blockType: byte, num: nat, segments: seq<UploadChunk>, m: nat)
    requires s.Valid() && s.link.Some? && s.link.value.Lag() == 0 && FirstDone(segments, 0, m)
    requires ServesBlock(s, blockType, num, segments)
    ensures var r := UploadBlock(s, blockType, num).1; r.Ok? ==> r.value == DataOf(segments[..m])
  {
    hide StartUploadRequest, UploadBlock, InOrder, ServesSegments, SegmentIn, SessionId;
    var n, id, l' := UploadIsExact(s, blockType, num);
    if UploadBlock(s, blockType, num).1.Ok? {
      var h := s.link.value.sent + [DT(StartUploadRequest(NextRef(s), blockType, num))];
      assert h <= l'.sent;
      InOrderIsSegments(l', h, id, segments, 0, m, n, UploadBlock(s, blockType, num).1.value);
      assert segments[0..m] == segments[..m];
    }
  }

  // ---------------------------------------------------------------- on a link that delivers everything

  ghost predicate Delivers(s: State) {
    && s.Valid() && s.link.Some? && s.link.value.Lag() == 0 && Echoes(s.link.value.env.serve)
    && (forall n :: n >= s.link.value.clock ==> s.link.value.env.io(n) == Delivered) && (forall n :: n >= s.checks ==> s.ctx(n) == None)
  }

  predicate RequestsFit(pduSize: nat, id: seq<byte>) {
    pduSize == 0 || 19 + (if |id| > 255 then 255 else |id|) <= pduSize
  }

  /** Of the segments from number k on, number m - 1 is the first done one, it is among the next `left`, and there is some data up to it. */
  ghost predicate DoneWithData(segments: seq<UploadChunk>, k: nat, m: nat, left: nat, payload: seq<byte>) {
    FirstDone(segments, k, m) && m <= k + left && payload + DataOf(segments[k..m]) != []
  }

  ghost predicate Uploadable(segments: seq<UploadChunk>, k: nat, left: nat, payload: seq<byte>) {
    exists m: nat :: DoneWithData(segments, k, m, left, payload)
  }

  lemma UploadableNow(segments: seq<UploadChunk>, k: nat, left: nat, payload: seq<byte>)
    requires k < |segments| && segments[k].done && left > 0
    ensures Uploadable(segments, k, left, payload) <==> payload + segments[k].data != []
  {
    assert segments[k..k + 1] == [segments[k]] && [segments[k]][1..] == [];
    assert DataOf(segments[k..k + 1]) == segments[k].data + [] == segments[k].data;
    assert DoneWithData(segments, k, k + 1, left, payload) <==> payload + segments[k].data != [];
    forall m: nat | FirstDone(segments, k, m) ensures m == k + 1 {}
  }

  lemma UploadableLater(segments: seq<UploadChunk>, k: nat, left: nat, payload: seq<byte>)
    requires k < |segments| && !segments[k].done && left > 0
    ensures Uploadable(segments, k, left, payload) <==> Uploadable(segments, k + 1, left - 1, payload + segments[k].data)
  {
    var next, fewer, all := k + 1, left - 1, payload + segments[k].data;
    if m: nat :| DoneWithData(segments, k, m, left, payload) {
      DoneLater(segments, k, m, left, payload);
      assert DoneWithData(segments, next, m, fewer, all);
    }
    if m: nat :| DoneWithData(segments, next, m, fewer, all) {
      DoneLater(segments, k, m, left, payload);
      assert DoneWithData(segments, k, m, left, payload);
    }
  }

  lemma DoneLater(segments: seq<UploadChunk>, k: nat, m: nat, left: nat, payload: seq<byte>)
    requires k < |segments| && !segments[k].done && left > 0
    ensures DoneWithData(segments, k, m, left, payload) <==> DoneWithData(segments, k + 1, m, left - 1, payload + segments[k].data)
  {
    assert FirstDone(segments, k, m) <==> FirstDone(segments, k + 1, m);
    if FirstDone(segments, k, m) {
      assert segments[k..m][1..] == segments[k + 1..m];
      assert payload + DataOf(segments[k..m]) == payload + segments[k].data + DataOf(segments[k + 1..m]);
    }
  }

  lemma SessionRequestLength(func: byte, ref: u16, id: seq<byte>)
    ensures |SessionRequest(func, ref, id)| == 19 + if |id| > 255 then 255 else |id|
  {
  }

  /** A request that fits is sent and brings the device's answer to it. */
  lemma DeliveredCall(s: State, req: seq<byte>)
    requires Delivers(s) && (s.pduSize == 0 || |req| <= s.pduSize) && |req| <= MAX_USER_DATA && Carries(DT(req), NextRef(s))
    requires Interpret(s.link.value.env.serve(s.link.value.sent + [DT(req)]), 0).Ok?
    ensures var (s', r) := Call(s, req);
            && Delivers(s') && s'.pduSize == s.pduSize && s'.link.value.env == s.link.value.env
            && s'.link.value.sent == s.link.value.sent + [DT(req)]
            && r == Interpret(s.link.value.env.serve(s'.link.value.sent), 0)
  {
    hide Interpret;
    var l := s.link.value;
    assert l.env.io(l.clock) == Delivered;
    var h := l.sent + [DT(req)];
    assert h[..l.taken + 1] == h && h[|h| - 1] == DT(req);
    assert EchoesRef(l.env.serve(h), NextRef(s));
    EchoedIsAccepted(l.env.serve(h), NextRef(s));
  }

  lemma DeliveredSegment(s: State, id: seq<byte>, left: nat, last: Error)
    requires Delivers(s) && left > 0 && RequestsFit(s.pduSize, id)
    requires SegmentIn(s.link.value.env.serve(s.link.value.sent + [DT(UploadRequest(NextRef(s), id))])).Some?
    ensures var (s', r) := TryChunk(s, id, left, last);
            && Delivers(s') && s'.pduSize == s.pduSize && s'.link.value.env == s.link.value.env
            && s'.link.value.sent == s.link.value.sent + [DT(UploadRequest(NextRef(s), id))]
            && r == Ok(SegmentIn(s.link.value.env.serve(s'.link.value.sent)).value)
  {
    var s1 := CtxErr(s).0;
    assert s.ctx(s.checks) == None;
    assert Delivers(s1);
    hide SessionRequest, Interpret, Call, ParseUploadResponse, Echoes;
    SessionRequestLength(FUNC_UPLOAD, NextRef(s), id);
    RequestsCarryTheirRef(NextRef(s), 0, 0, FUNC_UPLOAD, id);
    DeliveredCall(s1, UploadRequest(NextRef(s), id));
  }

  lemma EchoedIsAccepted(reply: Reply, ref: u16)
    requires EchoesRef(reply, ref) && Interpret(reply, 0).Ok?
    ensures Interpret(reply, ref) == Interpret(reply, 0)
  {
  }

  lemma {:induction false} MisfitFails(s: State, id: seq<byte>, left: nat, last: Error)
    requires s.Valid() && s.link.Some? && !RequestsFit(s.pduSize, id)
    ensures TryChunk(s, id, left, last).1.Err?
    decreases left
  {
    hide SessionRequest;
    if left > 0 {
      var (s1, done) := CtxErr(s);
      if done.None? {
        SessionRequestLength(FUNC_UPLOAD, NextRef(s1), id);
        var s2 := Call(s1, UploadRequest(NextRef(s1), id)).0;
        MisfitFails(s2, id, left - 1, RequestExceedsPDU);
      }
    }
  }

  lemma {:induction false} ChunksSucceedExactly(
      s: State, h: seq<Tpdu>, id: seq<byte>, segments: seq<UploadChunk>, k: nat, left: nat, payload: seq<byte>)
    requires Delivers(s) && RequestsFit(s.pduSize, id) && ServesSegments(s.link.value.env.serve, h, id, segments)
    requires FramesSince(h, s.link.value.sent, id) && |s.link.value.sent| == |h| + k
    requires k + left <= |segments| || exists m: nat :: FirstDone(segments, k, m)
    ensures UploadChunks(s, id, left, payload).1.Ok? <==> Uploadable(segments, k, left, payload)
    decreases left
  {
    hide TryChunk, SessionRequest, SegmentIn, ServesSegments, Uploadable;
    if left == 0 {
      NothingLeftToTry(segments, k, payload);
    } else {
      NextSegment(s, h, id, segments, k);
      DeliveredSegment(s, id, MAX_UPLOAD_RETRIES, NotConnected);
      var (s1, r) := TryChunk(s, id, MAX_UPLOAD_RETRIES, NotConnected);
      if segments[k].done {
        UploadableNow(segments, k, left, payload);
      } else {
        UploadableLater(segments, k, left, payload);
        if m: nat :| FirstDone(segments, k, m) {
          assert FirstDone(segments, k + 1, m);
        }
        ChunksSucceedExactly(s1, h, id, segments, k + 1, left - 1, payload + segments[k].data);
      }
    }
  }

  lemma NothingLeftToTry(segments: seq<UploadChunk>, k: nat, payload: seq<byte>)
    ensures !Uploadable(segments, k, 0, payload)
  {
  }

  lemma NextSegment(s: State, h: seq<Tpdu>, id: seq<byte>, segments: seq<UploadChunk>, k: nat)
    requires s.Valid() && s.link.Some? && ServesSegments(s.link.value.env.serve, h, id, segments) && k < |segments|
    requires FramesSince(h, s.link.value.sent, id) && |s.link.value.sent| == |h| + k
    ensures var sent := s.link.value.sent + [DT(UploadRequest(NextRef(s), id))];
            SegmentIn(s.link.value.env.serve(sent)) == Some(segments[k]) && FramesSince(h, sent, id)
  {
    hide UploadRequest, SegmentIn, IsUploadFrame;
    var frame := DT(UploadRequest(NextRef(s), id));
    RequestIsUploadFrame(NextRef(s), id);
    var sent := s.link.value.sent + [frame];
    assert sent[|h|..] == s.link.value.sent[|h|..] + [frame];
    assert sent == h + sent[|h|..];
  }

  lemma RequestIsUploadFrame(ref: u16, id: seq<byte>)
    ensures IsUploadFrame(DT(UploadRequest(ref, id)), id)
  {
    RequestsCarryTheirRef(ref, 0, 0, FUNC_UPLOAD, id);
    RequestLength(FUNC_UPLOAD, ref, id);
  }

  /**
   On a link that delivers everything, an upload succeeds if and only if the device opens a session whose requests fit
   the PDU, the first done segment is among the first 4096, and the segments up to it hold some data.
   */
  lemma UploadSucceedsExactly(s: State, blockType: byte, num: nat, segments: seq<UploadChunk>)
    requires Delivers(s) && num <= 0xFFFF && ServesBlock(s, blockType, num, segments)
    requires MAX_UPLOAD_CHUNKS <= |segments| || exists m: nat :: FirstDone(segments, 0, m)
    ensures UploadBlock(s, blockType, num).1.Ok?
            <==> && SessionId(s, blockType, num).Some? && RequestsFit(s.pduSize, SessionId(s, blockType, num).value)
                 && Uploadable(segments, 0, MAX_UPLOAD_CHUNKS, [])
  {
    hide StartUploadRequest, UploadChunks, ServesSegments, Uploadable, SegmentIn;
    if SessionId(s, blockType, num).Some? {
      var id := SessionId(s, blockType, num).value;
      var s1 := Call(s, StartUploadRequest(NextRef(s), blockType, num)).0;
      if RequestsFit(s.pduSize, id) {
        var h := s.link.value.sent + [DT(StartUploadRequest(NextRef(s), blockType, num))];
        assert s1.link.value.sent == h && h[|h|..] == [];
        ChunksSucceedExactly(s1, h, id, segments, 0, MAX_UPLOAD_CHUNKS, []);
      } else {
        MisfitUploadFails(s1, id, MAX_UPLOAD_CHUNKS, []);
      }
    }
  }

  lemma MisfitUploadFails(s: State, id: seq<byte>, left: nat, payload: seq<byte>)
    requires s.Valid() && s.link.Some? && !RequestsFit(s.pduSize, id) && left > 0
    ensures UploadChunks(s, id, left, payload).1.Err?
  {
    hide TryChunk;
    MisfitFails(s, id, MAX_UPLOAD_RETRIES, NotConnected);
  }

  /** The end-upload cannot go out: it exceeds the PDU size, or the link fails to send it. */
  ghost predicate EndBlocked(s: State, id: seq<byte>)
    requires s.Valid() && s.link.Some?
  {
    var l := s.link.value;
    || (s.pduSize > 0 && |EndUploadRequest(NextRef(s), id)| > s.pduSize)
    || l.env.io(l.clock).EncodeFails? || l.env.io(l.clock).SendFails?
  }

  /** The one attempt at an end-upload puts exactly that frame on the wire, unless it is blocked. */
  lemma CleanupSendsOnce(s: State, id: seq<byte>)
    requires s.Valid() && s.link.Some?
    ensures Cleanup(s, id).link.Some?
    ensures Cleanup(s, id).link.value.sent
         == s.link.value.sent + if EndBlocked(s, id) then [] else [DT(EndUploadRequest(NextRef(s), id))]
  {
    assert |EndUploadRequest(NextRef(s), id)| <= MAX_USER_DATA;
  }

  /**
   Between two states an upload session has put on the wire: its start, segment requests of its own, and then its one
   end-upload, attempted in state `mid`; that frame is missing exactly when the attempt was blocked.
   */
  ghost predicate SessionOnWire(before: State, after: State, blockType: byte, num: nat, id: seq<byte>, us: seq<Tpdu>, mid: State) {
    && before.Valid() && mid.Valid() && before.link.Some? && mid.link.Some? && after.link.Some?
    && AllUploads(us, id)
    && mid.link.value.sent == before.link.value.sent + [DT(StartUploadRequest(NextRef(before), blockType, num))] + us
    && after == Cleanup(mid, id)
    && after.link.value.sent == mid.link.value.sent + if EndBlocked(mid, id) then [] else [DT(EndUploadRequest(NextRef(mid), id))]
  }

  /** That is what every upload whose session is opened puts there. */
  lemma UploadWireTrace(s: State, blockType: byte, num: nat) returns (us: seq<Tpdu>, mid: State)
    requires s.Valid() && s.link.Some? && num <= 0xFFFF && SessionId(s, blockType, num).Some?
    ensures SessionOnWire(s, UploadBlock(s, blockType, num).0, blockType, num, SessionId(s, blockType, num).value, us, mid)
  {
    hide UploadChunks, SessionRequest, StartUploadRequest;
    var s1 := Call(s, StartUploadRequest(NextRef(s), blockType, num)).0;
    var id := SessionId(s, blockType, num).value;
    var n := UploadChunksInOrder(s1, id, MAX_UPLOAD_CHUNKS, []);
    mid := UploadChunks(s1, id, MAX_UPLOAD_CHUNKS, []).0;
    us := mid.link.value.sent[|s1.link.value.sent|..];
    assert mid.link.value.sent == s1.link.value.sent + us;
    CleanupSendsOnce(mid, id);
  }

  // ---------------------------------------------------------------- uploads and unread replies

  /** Inside the window, while a reply is unread and no reference is 0, no attempt at a chunk succeeds. */
  lemma {:induction false} LaggedChunkFails(s: State, id: seq<byte>, left: nat, last: Error, stamps: seq<nat>)
    requires s.Valid() && s.link.Some? && s.link.value.Lag() > 0
    requires Stamped(s.link.value, stamps, s.issued) && Echoes(s.link.value.env.serve)
    requires s.issued + left - stamps[0] < 0x1_0000
    requires forall n :: s.issued < n <= s.issued + left ==> RefOf(n) != 0
    ensures TryChunk(s, id, left, last).1.Err?
    decreases left
  {
    hide Call, UploadRequest, Stamped, Echoes;
    if left > 0 {
      var (s1, done) := CtxErr(s);
      if done.None? {
        var stamps2 := LaggedRequestFails(s1, id, stamps);
        var (s2, got) := Call(s1, UploadRequest(NextRef(s1), id));
        if !IsUploadProtocolError(got.error) {
          LaggedChunkFails(s2, id, left - 1, got.error, stamps2);
        }
      }
    }
  }

  lemma LaggedRequestFails(s: State, id: seq<byte>, stamps: seq<nat>) returns (stamps': seq<nat>)
    requires s.Valid() && s.link.Some? && s.link.value.Lag() > 0
    requires Stamped(s.link.value, stamps, s.issued) && Echoes(s.link.value.env.serve)
    requires s.issued + 1 - stamps[0] < 0x1_0000 && RefOf(s.issued + 1) != 0
    ensures var (s', got) := Call(s, UploadRequest(NextRef(s), id));
            && got.Err? && s'.link.Some? && s'.link.value.Lag() > 0 && s'.link.value.env == s.link.value.env
            && Stamped(s'.link.value, stamps', s'.issued) && stamps'[0] >= stamps[0]
  {
    hide SessionRequest, Interpret, SendReceive, Echoes;
    var req := UploadRequest(NextRef(s), id);
    RequestsCarryTheirRef(NextRef(s), 0, 0, FUNC_UPLOAD, id);
    RequestLength(FUNC_UPLOAD, NextRef(s), id);
    LagBlocks(s.link.value, s.pduSize, req, stamps, s.issued);
    StampsKept(s.link.value, s.pduSize, req, stamps, s.issued);
    stamps' := StampsAfter(s.link.value, Call(s, req).0.link.value, stamps, s.issued + 1);
  }

  lemma RefsAfterZero(n: nat, d: nat)
    requires RefOf(n) == 0 && d < 0x1_0000
    ensures RefOf(n + d) == d
  {
  }

  lemma DistanceBelowWrap(n: nat, m: nat)
    requires m < n < m + 0x1_0000
    ensures (n - m) % 0x1_0000 != 0
  {
  }

  /** The start of an upload on a connection that owes replies: the lag stays, and only reference 0 gets past the check. */
  lemma LaggedStart(s: State, blockType: byte, num: nat, stamps: seq<nat>) returns (stamps': seq<nat>)
    requires s.Valid() && s.link.Some? && s.link.value.Lag() > 0
    requires Stamped(s.link.value, stamps, s.issued) && Echoes(s.link.value.env.serve)
    requires s.issued + 1 - stamps[0] < 0x1_0000
    ensures var (s1, got) := Call(s, StartUploadRequest(NextRef(s), blockType, num));
            && s1.link.Some? && s1.link.value.Lag() > 0 && s1.link.value.env == s.link.value.env
            && Stamped(s1.link.value, stamps', s1.issued) && stamps'[0] >= stamps[0]
            && (got.Ok? ==> RefOf(s.issued + 1) == 0)
  {
    hide StartUploadRequest;
    var req := StartUploadRequest(NextRef(s), blockType, num);
    StartCarriesRef(NextRef(s), blockType, num);
    hide Interpret, Echoes, Carries;
    StampsKept(s.link.value, s.pduSize, req, stamps, s.issued);
    AcceptedAcrossLag(s.link.value, s.pduSize, req, stamps, s.issued);
    DistanceBelowWrap(s.issued + 1, stamps[0]);
    hide Stamped;
    stamps' := StampsAfter(s.link.value, Call(s, req).0.link.value, stamps, s.issued + 1);
  }

  /** An upload begun while some reply is unread never returns data, not even when its start request's reference is 0. */
  lemma LaggedUploadFails(s: State, blockType: byte, num: int, stamps: seq<nat>)
    requires s.Valid() && s.link.Some? && s.link.value.Lag() > 0
    requires Stamped(s.link.value, stamps, s.issued) && Echoes(s.link.value.env.serve)
    requires s.issued + 4 - stamps[0] < 0x1_0000
    ensures UploadBlock(s, blockType, num).1.Err?
  {
    hide StartUploadRequest, TryChunk, Interpret, SendReceive, ParseStartUploadResponse;
    if 0 <= num <= 0xFFFF {
      var stamps1 := LaggedStart(s, blockType, num, stamps);
      var (s1, got) := Call(s, StartUploadRequest(NextRef(s), blockType, num));
      if got.Ok? && ParseStartUploadResponse(got.value.0).Some? {
        var id := ParseStartUploadResponse(got.value.0).value;
        forall n | s1.issued < n <= s1.issued + MAX_UPLOAD_RETRIES ensures RefOf(n) != 0 {
          RefsAfterZero(s.issued + 1, n - s1.issued);
        }
        LaggedChunkFails(s1, id, MAX_UPLOAD_RETRIES, NotConnected, stamps1);
      }
    }
  }

  lemma StartCarriesRef(ref: u16, blockType: byte, num: nat)
    ensures Carries(DT(StartUploadRequest(ref, blockType, num)), ref)
  {
    RequestsCarryTheirRef(ref, blockType, num, 0, []);
  }

  /** After one request from a connection that owes nothing, at most its own reply is unread, and none if it was accepted. */
  lemma RequestFromQuiet(s: State, id: seq<byte>) returns (stamps: seq<nat>)
    requires s.Valid() && s.link.Some? && s.link.value.Lag() == 0
    ensures var (s', got) := Call(s, UploadRequest(NextRef(s), id));
            && s'.link.Some? && s'.link.value.env == s.link.value.env && Stamped(s'.link.value, stamps, s'.issued)
            && (s'.link.value.Lag() > 0 ==> |stamps| > 0 && stamps[0] == s'.issued)
            && (got.Ok? ==> s'.link.value.Lag() == 0)
  {
    hide SessionRequest, Interpret;
    var req := UploadRequest(NextRef(s), id);
    RequestsCarryTheirRef(NextRef(s), 0, 0, FUNC_UPLOAD, id);
    RequestLength(FUNC_UPLOAD, NextRef(s), id);
    assert Stamped(s.link.value, [], s.issued);
    StampsKept(s.link.value, s.pduSize, req, [], s.issued);
    stamps := StampsAfter(s.link.value, Call(s, req).0.link.value, [], s.issued + 1);
  }

  lemma {:induction false} ChunkLeavesNothingUnread(s: State, id: seq<byte>, left: nat, last: Error)
    requires s.Valid() && s.link.Some? && s.link.value.Lag() == 0 && Echoes(s.link.value.env.serve) && left < 0x1_0000
    requires forall n :: s.issued < n <= s.issued + left ==> RefOf(n) != 0
    ensures TryChunk(s, id, left, last).1.Ok? ==> TryChunk(s, id, left, last).0.link.value.Lag() == 0
    decreases left
  {
    hide Call, UploadRequest, Stamped, Echoes, ParseUploadResponse;
    if left > 0 {
      var (s1, done) := CtxErr(s);
      if done.None? {
        var stamps := RequestFromQuiet(s1, id);
        var (s2, got) := Call(s1, UploadRequest(NextRef(s1), id));
        if got.Err? && !IsUploadProtocolError(got.error) {
          if s2.link.value.Lag() > 0 {
            LaggedChunkFails(s2, id, left - 1, got.error, stamps);
          } else {
            ChunkLeavesNothingUnread(s2, id, left - 1, got.error);
          }
        }
      }
    }
  }

  lemma {:induction false} AttemptsIssueRefs(s: State, id: seq<byte>, left: nat, last: Error)
    requires s.Valid()
    ensures s.issued <= TryChunk(s, id, left, last).0.issued <= s.issued + left
    decreases left
  {
    hide UploadRequest, Interpret, ParseUploadResponse;
    if left > 0 {
      var (s1, done) := CtxErr(s);
      if done.None? {
        var (s2, got) := Call(s1, UploadRequest(NextRef(s1), id));
        if got.Err? && !IsUploadProtocolError(got.error) {
          AttemptsIssueRefs(s2, id, left - 1, got.error);
        }
      }
    }
  }

  /** When no reference used is 0, an upload that returns data has read every reply: any retry after an unread reply ends in failure. */
  lemma {:induction false} UploadLeavesNothingUnread(s: State, id: seq<byte>, left: nat, payload: seq<byte>)
    requires s.Valid() && s.link.Some? && s.link.value.Lag() == 0 && Echoes(s.link.value.env.serve)
    requires forall n :: s.issued < n <= s.issued + MAX_UPLOAD_RETRIES * left ==> RefOf(n) != 0
    ensures UploadChunks(s, id, left, payload).1.Ok? ==> UploadChunks(s, id, left, payload).0.link.value.Lag() == 0
    decreases left
  {
    hide TryChunk;
    if left > 0 {
      ChunkLeavesNothingUnread(s, id, MAX_UPLOAD_RETRIES, NotConnected);
      AttemptsIssueRefs(s, id, MAX_UPLOAD_RETRIES, NotConnected);
      TryChunkTakesNext(s, id, MAX_UPLOAD_RETRIES, NotConnected);
      var (s1, got) := TryChunk(s, id, MAX_UPLOAD_RETRIES, NotConnected);
      if got.Ok? && !got.value.done {
        UploadLeavesNothingUnread(s1, id, left - 1, payload + got.value.data);
      }
    }
  }

  // ---------------------------------------------------------------- with reference 0 a retry can succeed

  const START_ANSWER: seq<byte> := [FUNC_UPLOAD_START, 0, 0, 0, 0, 0, 0, 0, 1, 0x53]
  const LAST_SEGMENT: seq<byte> := [RET_UNUSED, 0x04, 0, 8, 9]

  /** Answers a start request with session "S", any other request with a final one-byte segment. */
  function OneSegment(h: seq<Tpdu>): Reply {
    if |h| == 1 then Frame(CC)
    else if |h| == 2 then H.SetupAnswer(1, H.Setup(1, 1, 480))
    else if h == [] || !h[|h| - 1].DT? || |h[|h| - 1].userData| < 11 then Undecodable
    else
      var f := h[|h| - 1].userData;
      if f[10] == FUNC_UPLOAD_START then Frame(DT(AckBytes(GetU16(f, 4), 0, 0, START_ANSWER, [])))
      else Frame(DT(AckBytes(GetU16(f, 4), 0, 0, [FUNC_UPLOAD, 0], LAST_SEGMENT)))
  }

  /** After the handshake and the start, one reply goes unread. */
  const ZERO_REF := Env(n => if n == 3 then ReceiveFails(NetTimeout) else Delivered, OneSegment)

  lemma OneSegmentAnswers(h: seq<Tpdu>, f: seq<byte>)
    requires |f| >= 11 && |h| >= 2
    ensures f[10] == FUNC_UPLOAD_START ==> Interpret(OneSegment(h + [DT(f)]), GetU16(f, 4)) == Ok((START_ANSWER, []))
    ensures f[10] == FUNC_UPLOAD ==> Interpret(OneSegment(h + [DT(f)]), 0) == Ok(([FUNC_UPLOAD, 0], LAST_SEGMENT))
  {
    var t := DT(f);
    assert (h + [t])[|h + [t]| - 1] == t;
    AckRoundTrip(GetU16(f, 4), 0, 0, START_ANSWER, []);
    AckRoundTrip(GetU16(f, 4), 0, 0, [FUNC_UPLOAD, 0], LAST_SEGMENT);
  }

  lemma SessionFrames(func: byte, ref: u16)
    ensures var f := SessionRequest(func, ref, [0x53]); 11 <= |f| <= 30 && f[10] == func && GetU16(f, 4) == ref
  {
    RequestsCarryTheirRef(ref, 0, 0, func, [0x53]);
  }

  /** The scenario's connection, opened by the frames `hello`, after some more. */
  function ZeroRefState(hello: seq<Tpdu>, clock: nat, sent: seq<Tpdu>, taken: nat, issued: nat, checks: nat): State {
    State(Some(Link(ZERO_REF, 2 + clock, hello + sent, 2 + taken)), 480, issued, NEVER, checks)
  }

  lemma ZeroRefStart(hello: seq<Tpdu>, f0: seq<byte>, checks: nat)
    requires |hello| == 2 && 11 <= |f0| <= 30 && f0[10] == FUNC_UPLOAD_START && GetU16(f0, 4) == 0xFFFE
    ensures Call(ZeroRefState(hello, 0, [], 0, 0xFFFD, checks), f0)
         == (ZeroRefState(hello, 1, [DT(f0)], 1, 0xFFFE, checks), Ok((START_ANSWER, [])))
  {
    hide Interpret, OneSegment;
    var none: seq<Tpdu> := [];
    assert hello + none == hello && (hello + [DT(f0)])[..3] == hello + [DT(f0)];
    OneSegmentAnswers(hello, f0);
  }

  lemma ZeroRefUnread(hello: seq<Tpdu>, f0: seq<byte>, f1: seq<byte>, checks: nat)
    requires |hello| == 2 && |f1| <= 30
    ensures Call(ZeroRefState(hello, 1, [DT(f0)], 1, 0xFFFE, checks), f1)
         == (ZeroRefState(hello, 2, [DT(f0), DT(f1)], 1, 0xFFFF, checks), Err(Error.Io(NetTimeout)))
  {
    assert hello + [DT(f0)] + [DT(f1)] == hello + [DT(f0), DT(f1)];
  }

  lemma ZeroRefStale(hello: seq<Tpdu>, f0: seq<byte>, f1: seq<byte>, f2: seq<byte>, checks: nat)
    requires |hello| == 2 && 11 <= |f1| <= 30 && f1[10] == FUNC_UPLOAD && |f2| <= 30
    ensures Call(ZeroRefState(hello, 2, [DT(f0), DT(f1)], 1, 0xFFFF, checks), f2)
         == (ZeroRefState(hello, 3, [DT(f0), DT(f1), DT(f2)], 2, 0x1_0000, checks), Ok(([FUNC_UPLOAD, 0], LAST_SEGMENT)))
  {
    hide Interpret, OneSegment;
    assert hello + [DT(f0), DT(f1)] + [DT(f2)] == hello + [DT(f0), DT(f1), DT(f2)];
    assert (hello + [DT(f0), DT(f1), DT(f2)])[..4] == hello + [DT(f0)] + [DT(f1)];
    OneSegmentAnswers(hello + [DT(f0)], f1);
  }

  lemma ZeroRefRetry(hello: seq<Tpdu>, f0: seq<byte>, id: seq<byte>, checks: nat)
    requires |hello| == 2 && id == [0x53]
    ensures var f1, f2 := UploadRequest(0xFFFF, id), UploadRequest(0, id);
            TryChunk(ZeroRefState(hello, 1, [DT(f0)], 1, 0xFFFE, checks), id, 3, NotConnected)
            == (ZeroRefState(hello, 3, [DT(f0), DT(f1), DT(f2)], 2, 0x1_0000, checks + 2), Ok(UploadChunk(true, [9])))
  {
    hide SessionRequest, Call;
    var f1, f2 := UploadRequest(0xFFFF, id), UploadRequest(0, id);
    SessionFrames(FUNC_UPLOAD, 0xFFFF);
    SessionFrames(FUNC_UPLOAD, 0);
    ZeroRefUnread(hello, f0, f1, checks + 1);
    ZeroRefStale(hello, f0, f1, f2, checks + 2);
    var s2 := ZeroRefState(hello, 2, [DT(f0), DT(f1)], 1, 0xFFFF, checks + 1);
    assert LAST_SEGMENT[4..5] == [9];
    assert TryChunk(s2, id, 2, Error.Io(NetTimeout))
        == (ZeroRefState(hello, 3, [DT(f0), DT(f1), DT(f2)], 2, 0x1_0000, checks + 2), Ok(UploadChunk(true, [9])));
  }

  /**
   "A retry after an unread reply fails" needs its hypothesis: in a session just opened, with 65533 references issued before,
   the retry carries reference 0, takes the stale reply, and the upload returns its (right) data.
   */
  lemma RetryWithZeroRefSucceeds(o: H.Options, rack: int, slot: int, blockType: byte, num: nat) returns (session: H.Session)
    requires H.TSAPs(o, rack, slot).Ok? && num <= 0xFFFF
    ensures H.Attempt(o, H.Accepted(ZERO_REF), NEVER, 0, rack, slot).1 == Ok(session)
    ensures var (s', r) := UploadBlock(session.Opened(0xFFFD, NEVER, 2), blockType, num);
            r == Ok([9]) && s'.link.Some? && s'.link.value.Lag() > 0
  {
    session := H.WelcomeOpens(o, ZERO_REF, rack, slot, H.Setup(1, 1, 480));
    hide UploadBlock, H.TSAPs, H.SetupRequest;
    var hello := session.link.sent;
    assert hello + [] == hello;
    ZeroRefUpload(hello, blockType, num, 2);
  }

  lemma ZeroRefUpload(hello: seq<Tpdu>, blockType: byte, num: nat, checks: nat)
    requires |hello| == 2 && num <= 0xFFFF
    ensures var (s', r) := UploadBlock(ZeroRefState(hello, 0, [], 0, 0xFFFD, checks), blockType, num);
            r == Ok([9]) && s'.link.Some? && s'.link.value.Lag() > 0
  {
    hide SessionRequest, StartUploadRequest, TryChunk, UploadChunks, Call;
    var f0 := StartUploadRequest(0xFFFE, blockType, num);
    StartLength(0xFFFE, blockType, num);
    ZeroRefStart(hello, f0, checks);
    assert START_ANSWER[9..10] == [0x53] && TrimSpace([0x53]) == [0x53];
    var s1 := ZeroRefState(hello, 1, [DT(f0)], 1, 0xFFFE, checks);
    ZeroRefRetry(hello, f0, [0x53], checks);
    var s2 := TryChunk(s1, [0x53], 3, NotConnected).0;
    OneChunk(s1, [0x53], MAX_UPLOAD_CHUNKS, s2);
    CallKeepsLag(s2, EndUploadRequest(NextRef(s2), [0x53]));
  }

  lemma OneChunk(s: State, id: seq<byte>, left: nat, s': State)
    requires s.Valid() && left > 0 && TryChunk(s, id, 3, NotConnected) == (s', Ok(UploadChunk(true, [9])))
    ensures UploadChunks(s, id, left, []) == (s', Ok([9]))
  {
    hide TryChunk;
    var none: seq<byte>, nine: seq<byte> := [], [9];
    assert none + nine == nine;
  }

  lemma CallKeepsLag(s: State, req: seq<byte>)
    requires s.Valid() && s.link.Some?
    ensures Call(s, req).0.link.Some? && Call(s, req).0.link.value.Lag() >= s.link.value.Lag()
  {
  }

  lemma StartLength(ref: u16, blockType: byte, num: nat)
    ensures var f := StartUploadRequest(ref, blockType, num); 11 <= |f| <= 30 && f[10] == FUNC_UPLOAD_START && GetU16(f, 4) == ref
  {
    RequestsCarryTheirRef(ref, blockType, num, 0, []);
  }
}
