/**
 A device that keeps its blocks by type and number, in segments, and reads the upload frames it is sent with its own
 reading of the protocol's layout. Uploads are proved against it.
 */
module BlockStore {
  import opened Bytes
  import opened S7
  import opened Link
  import opened Exchange
  import opened PduBlocks
  import opened Upload
  import H = Handshake
  import Plc
  import EndToEnd

  // ---------------------------------------------------------------- the reference decoder

  datatype UploadCall =
    | Start(ref: u16, blockType: byte, number: nat)
    | Next(ref: u16, session: seq<byte>)
    | End(ref: u16, session: seq<byte>)
    | NoCall

  predicate IsDigit(b: byte) {
    0x30 <= b <= 0x39
  }

  /** The number these decimal digits write. */
  function Number(digits: seq<byte>): nat
    requires forall i :: 0 <= i < |digits| ==> IsDigit(digits[i])
  {
    if digits == [] then 0
    else
      assert IsDigit(digits[|digits| - 1]);
      10 * Number(digits[..|digits| - 1]) + (digits[|digits| - 1] as int - 0x30)
  }

  /**
   Function code at 10, then seven bytes of no interest and a length at 18. A start names a file of nine bytes: an
   underscore, the block type, five digits, 'A' and one more; the others name a session.
   */
  function Decode(f: seq<byte>): UploadCall {
    if |f| < 19 || f[0] != 0x32 || f[1] != 0x01 || GetU16(f, 8) != 0 || |f| != 10 + GetU16(f, 6) || |f| != 19 + f[18] as int then NoCall
    else if f[10] == 0x1D && |f| == 28 && f[19] == 0x5F && f[26] == 0x41 && (forall i :: 0 <= i < 5 ==> IsDigit(f[21..26][i]))
    then Start(GetU16(f, 4), f[20], Number(f[21..26]))
    else if f[10] == 0x1E then Next(GetU16(f, 4), f[19..])
    else if f[10] == 0x1F then End(GetU16(f, 4), f[19..])
    else NoCall
  }

  /** The six block types, by their characters; any other type is taken for a DB. */
  function TypeOf(blockType: byte): byte {
    if blockType in {0x38, 0x41, 0x43, 0x44, 0x45, 0x46} then blockType else 0x41
  }

  lemma NumberOfFive(a: byte, b: byte, c: byte, d: byte, e: byte)
    requires IsDigit(a) && IsDigit(b) && IsDigit(c) && IsDigit(d) && IsDigit(e)
    ensures var ds := [a, b, c, d, e];
            (forall i :: 0 <= i < 5 ==> IsDigit(ds[i]))
            && Number(ds) == 10000 * (a as int - 0x30) + 1000 * (b as int - 0x30) + 100 * (c as int - 0x30) + 10 * (d as int - 0x30) + (e as int - 0x30)
  {
    hide Number;
    NoNumber();
    NumberStep([], a);
    assert [] + [a] == [a] && [a] + [b] == [a, b] && [a, b] + [c] == [a, b, c] && [a, b, c] + [d] == [a, b, c, d];
    NumberStep([a], b);
    NumberStep([a, b], c);
    NumberStep([a, b, c], d);
    NumberStep([a, b, c, d], e);
    assert [a, b, c, d] + [e] == [a, b, c, d, e];
  }

  lemma FiveDigits(n: nat)
    requires n < 100000
    ensures n == 10000 * (n / 10000 % 10) + 1000 * (n / 1000 % 10) + 100 * (n / 100 % 10) + 10 * (n / 10 % 10) + n % 10
  {
    assert n / 10 / 10 == n / 100 && n / 100 / 10 == n / 1000 && n / 1000 / 10 == n / 10000;
  }

  lemma NumberOfDigits(n: nat)
    requires n < 100000
    ensures var ds := [Digit(n / 10000), Digit(n / 1000), Digit(n / 100), Digit(n / 10), Digit(n)];
            (forall i :: 0 <= i < 5 ==> IsDigit(ds[i])) && Number(ds) == n
  {
    hide Number;
    FiveDigits(n);
    NumberOfFive(Digit(n / 10000), Digit(n / 1000), Digit(n / 100), Digit(n / 10), Digit(n));
  }

  lemma NoNumber()
    ensures Number([]) == 0
  {
  }

  lemma NumberStep(ds: seq<byte>, d: byte)
    requires (forall i :: 0 <= i < |ds| ==> IsDigit(ds[i])) && IsDigit(d)
    ensures Number(ds + [d]) == 10 * Number(ds) + (d as int - 0x30)
  {
    assert (ds + [d])[..|ds + [d]| - 1] == ds;
  }

  /** Every start request names its block: type and number. */
  lemma DecodeStartRequest(ref: u16, blockType: byte, num: nat)
    requires num <= 0xFFFF
    ensures Decode(StartUploadRequest(ref, blockType, num)) == Start(ref, TypeOf(blockType), num)
    ensures |StartUploadRequest(ref, blockType, num)| == 28
  {
    var ds := [Digit(num / 10000), Digit(num / 1000), Digit(num / 100), Digit(num / 10), Digit(num)];
    NumberOfDigits(num);
    hide Number;
    var param := [FUNC_UPLOAD_START] + ZEROS7 + [0x09] + ([0x5F, TypeChar(blockType)] + ds + [0x41, 0x00]);
    var f := HeaderBytes(ROSCTR_JOB, ref, 18, 0) + param;
    assert StartUploadRequest(ref, blockType, num) == f;
    FieldsOfHeader(ROSCTR_JOB, ref, 18, 0, param);
    assert forall i :: 10 <= i < 28 ==> f[i] == param[i - 10];
    assert f[21..26] == ds;
  }

  /** And every later request names its session, cut to 255 bytes, and what it asks for. */
  lemma DecodeSessionRequest(ref: u16, id: seq<byte>)
    ensures var cut := if |id| > 255 then id[..255] else id;
            Decode(UploadRequest(ref, id)) == Next(ref, cut) && Decode(EndUploadRequest(ref, id)) == End(ref, cut)
  {
    DecodeSession(FUNC_UPLOAD, ref, id);
    DecodeSession(FUNC_UPLOAD_END, ref, id);
  }

  lemma DecodeSession(func: byte, ref: u16, id: seq<byte>)
    requires func == FUNC_UPLOAD || func == FUNC_UPLOAD_END
    ensures var cut := if |id| > 255 then id[..255] else id;
            Decode(SessionRequest(func, ref, id)) == if func == 0x1E then Next(ref, cut) else End(ref, cut)
  {
    hide Number, SessionRequest;
    SessionFrame(func, ref, id);
  }

  lemma SessionFrame(func: byte, ref: u16, id: seq<byte>)
    ensures var f, cut := SessionRequest(func, ref, id), if |id| > 255 then id[..255] else id;
            && |f| == 19 + |cut| && f[0] == 0x32 && f[1] == 0x01 && GetU16(f, 4) == ref && GetU16(f, 6) == 9 + |cut| && GetU16(f, 8) == 0
            && f[10] == func && f[18] == |cut| && f[19..] == cut
  {
    hide PutU16;
    var cut := if |id| > 255 then id[..255] else id;
    var param := [func] + ZEROS7 + [|cut|] + cut;
    var f := HeaderBytes(ROSCTR_JOB, ref, 9 + |cut|, 0) + param;
    assert SessionRequest(func, ref, id) == f;
    FieldsOfHeader(ROSCTR_JOB, ref, 9 + |cut|, 0, param);
    assert f[10] == param[0] && f[18] == param[8] && f[19..] == param[9..] == cut;
  }

  // ---------------------------------------------------------------- the device

  type Segment = s: seq<byte> | |s| <= 0x1FFF witness []
  type Name = s: seq<byte> | 0 < |s| <= 255 witness [0x30]

  /** The blocks, the name it gives its one upload session, and the largest PDU it negotiates. */
  datatype Store = Store(blocks: map<(byte, nat), seq<Segment>>, session: Name, maxPDU: u16) {
    predicate Holds(key: (byte, nat)) {
      key in blocks && blocks[key] != []
    }
  }

  /** What is still to be sent of the block being uploaded. */
  datatype Uploading = Idle | Open(left: seq<Segment>)

  function Acknowledge(ref: u16, errorClass: byte, errorCode: byte, param: seq<byte>, data: seq<byte>): Reply
    requires |param| <= 300 && |data| <= 0x2003
  {
    Frame(DT(AckBytes(ref, errorClass, errorCode, param, data)))
  }

  function StartAnswer(store: Store): seq<byte> {
    [0x1D, 0, 0, 0, 0, 0, 0, 0, |store.session|] + store.session
  }

  function SegmentAnswer(ref: u16, segment: Segment, last: bool): Reply {
    Acknowledge(ref, 0, 0, [0x1E, if last then 0 else 1], [0x00, 0x04] + PutU16(8 * |segment|) + segment)
  }

  function Respond(store: Store, u: Uploading, t: Tpdu): (Uploading, Reply) {
    if !t.DT? then (Idle, if t.CR? then Frame(CC) else Undecodable)
    else if Plc.IsSetup(t.userData) then
      (Idle, H.SetupAnswer(GetU16(t.userData, 4),
                           Plc.Smaller(store.maxPDU, GetU16(t.userData, 12), GetU16(t.userData, 14), GetU16(t.userData, 16))))
    else
      match Decode(t.userData)
      case Start(ref, blockType, number) =>
        if store.Holds((blockType, number)) then (Open(store.blocks[(blockType, number)]), Acknowledge(ref, 0, 0, StartAnswer(store), []))
        else (Idle, Acknowledge(ref, 0xD2, 0x09, [], []))
      case Next(ref, session) =>
        if session == store.session && u.Open? && u.left != []
        then (Open(u.left[1..]), SegmentAnswer(ref, u.left[0], |u.left| == 1))
        else (u, Acknowledge(ref, 0xD2, 0x40, [], []))
      case End(ref, session) => (Idle, Acknowledge(ref, 0, 0, [0x1F], []))
      case NoCall => (u, Undecodable)
  }

  /** What it is uploading after a list of frames, oldest first. */
  function UploadingAfter(store: Store, h: seq<Tpdu>): Uploading {
    if h == [] then Idle else Respond(store, UploadingAfter(store, h[..|h| - 1]), h[|h| - 1]).0
  }

  function StoreAnswer(store: Store, h: seq<Tpdu>): Reply {
    if h == [] then Undecodable else Respond(store, UploadingAfter(store, h[..|h| - 1]), h[|h| - 1]).1
  }

  /** After these frames the device is that one. */
  ghost predicate StoreFrom(serve: seq<Tpdu> -> Reply, store: Store, before: seq<Tpdu>) {
    forall h: seq<Tpdu> :: before <= h ==> serve(h) == StoreAnswer(store, h)
  }

  lemma StoreNext(store: Store, h: seq<Tpdu>, t: Tpdu)
    ensures UploadingAfter(store, h + [t]) == Respond(store, UploadingAfter(store, h), t).0
    ensures StoreAnswer(store, h + [t]) == Respond(store, UploadingAfter(store, h), t).1
  {
    assert (h + [t])[..|h + [t]| - 1] == h;
  }

  // ---------------------------------------------------------------- it serves its blocks

  function Chunks(segments: seq<Segment>): (r: seq<UploadChunk>)
    ensures |r| == |segments|
  {
    seq(|segments|, i requires 0 <= i < |segments| => UploadChunk(i == |segments| - 1, segments[i]))
  }

  lemma RespondsToNext(store: Store, u: Uploading, t: Tpdu)
    requires IsUploadFrame(t, store.session) && u.Open? && u.left != []
    ensures Respond(store, u, t) == (Open(u.left[1..]), SegmentAnswer(GetU16(t.userData, 4), u.left[0], |u.left| == 1))
  {
    hide SessionRequest, Number;
    var ref := GetU16(t.userData, 4);
    DecodeSessionRequest(ref, store.session);
    NotASetup(t.userData);
  }

  lemma NotASetup(f: seq<byte>)
    requires !Decode(f).NoCall?
    ensures !Plc.IsSetup(f)
  {
  }

  lemma {:induction false} StillOpen(store: Store, h: seq<Tpdu>, us: seq<Tpdu>, segments: seq<Segment>)
    requires UploadingAfter(store, h) == Open(segments) && AllUploads(us, store.session) && |us| <= |segments|
    ensures UploadingAfter(store, h + us) == Open(segments[|us|..])
    decreases |us|
  {
    hide Respond, IsUploadFrame;
    if us == [] {
      assert h + us == h;
    } else {
      var n := |us| - 1;
      StillOpen(store, h, us[..n], segments);
      assert h + us == h + us[..n] + [us[n]];
      StoreNext(store, h + us[..n], us[n]);
      RespondsToNext(store, Open(segments[n..]), us[n]);
      assert segments[n..][1..] == segments[n + 1..];
    }
  }

  lemma SegmentIsRead(ref: u16, segment: Segment, last: bool)
    ensures SegmentIn(SegmentAnswer(ref, segment, last)) == Some(UploadChunk(last, segment))
  {
    AckRoundTrip(ref, 0, 0, [0x1E, if last then 0 else 1], [0x00, 0x04] + PutU16(8 * |segment|) + segment);
    UploadResponseRoundTrip(segment, last);
  }

  lemma OpenServes(serve: seq<Tpdu> -> Reply, store: Store, h: seq<Tpdu>, segments: seq<Segment>)
    requires StoreFrom(serve, store, h) && UploadingAfter(store, h) == Open(segments)
    ensures ServesSegments(serve, h, store.session, Chunks(segments))
  {
    hide SegmentIn, StoreFrom, UploadingAfter, AllUploads;
    forall us: seq<Tpdu> | AllUploads(us, store.session) && 0 < |us| <= |Chunks(segments)|
      ensures SegmentIn(serve(h + us)) == Some(Chunks(segments)[|us| - 1])
    {
      OpenServesNext(serve, store, h, segments, us);
    }
  }

  lemma OpenServesNext(serve: seq<Tpdu> -> Reply, store: Store, h: seq<Tpdu>, segments: seq<Segment>, us: seq<Tpdu>)
    requires StoreFrom(serve, store, h) && UploadingAfter(store, h) == Open(segments)
    requires AllUploads(us, store.session) && 0 < |us| <= |segments|
    ensures SegmentIn(serve(h + us)) == Some(Chunks(segments)[|us| - 1])
  {
    hide Respond, SegmentIn, UploadRequest, SegmentAnswer, UploadingAfter, StoreAnswer;
    var n := |us| - 1;
    StillOpen(store, h, us[..n], segments);
    assert h <= h + us && h + us == h + us[..n] + [us[n]];
    StoreNext(store, h + us[..n], us[n]);
    assert us[n] in us && segments[n..] != [] && segments[n..][0] == segments[n];
    RespondsToNext(store, Open(segments[n..]), us[n]);
    SegmentIsRead(GetU16(us[n].userData, 4), segments[n], n == |segments| - 1);
  }

  lemma RespondsToStart(store: Store, u: Uploading, ref: u16, blockType: byte, num: nat)
    requires num <= 0xFFFF
    ensures var key := (TypeOf(blockType), num);
            Respond(store, u, DT(StartUploadRequest(ref, blockType, num)))
            == if store.Holds(key) then (Open(store.blocks[key]), Acknowledge(ref, 0, 0, StartAnswer(store), []))
               else (Idle, Acknowledge(ref, 0xD2, 0x09, [], []))
  {
    hide StartUploadRequest, Number;
    DecodeStartRequest(ref, blockType, num);
    NotASetup(StartUploadRequest(ref, blockType, num));
  }

  /** What the client makes of the answer to a start: the session's name, blanks around it aside, or the error. */
  lemma StartIsRead(store: Store, ref: u16)
    ensures Interpret(Acknowledge(ref, 0, 0, StartAnswer(store), []), ref) == Ok((StartAnswer(store), []))
    ensures ParseStartUploadResponse(StartAnswer(store)) == Some(TrimSpace(store.session))
    ensures Interpret(Acknowledge(ref, 0xD2, 0x09, [], []), ref) == Err(S7Error(0xD2, 0x09))
  {
    AckRoundTrip(ref, 0, 0, StartAnswer(store), []);
    AckRoundTrip(ref, 0xD2, 0x09, [], []);
    assert StartAnswer(store)[9..9 + |store.session|] == store.session;
  }

  predicate Blank(s: seq<byte>) {
    forall i :: 0 <= i < |s| ==> IsSpace(s[i])
  }

  /** Trimming takes away the blanks at both ends, and nothing else. */
  lemma {:induction false} TrimSpaceExactly(before: seq<byte>, name: seq<byte>, after: seq<byte>)
    requires Blank(before) && Blank(after)
    requires name != [] ==> !IsSpace(name[0]) && !IsSpace(name[|name| - 1])
    ensures TrimSpace(before + name + after) == name
    decreases |before| + |after|
  {
    var s := before + name + after;
    if before != [] {
      TrimSpaceExactly(before[1..], name, after);
      assert s[1..] == before[1..] + name + after;
    } else if after != [] {
      if name == [] {
        TrimSpaceExactly([], [], after[1..]);
        assert s[1..] == before + name + after[1..];
      } else {
        var n := |after| - 1;
        TrimSpaceExactly([], name, after[..n]);
        assert s[0] == name[0] && s[|s| - 1] == after[n];
        assert s[..|s| - 1] == before + name + after[..n];
      }
    } else {
      assert s == name;
    }
  }

  // ---------------------------------------------------------------- uploads from it

  /** A connection to the device on which nothing is waiting; the name of its session has no blanks at its ends. */
  ghost predicate Connected(s: State, store: Store) {
    && s.Valid() && s.link.Some? && s.link.value.Lag() == 0
    && StoreFrom(s.link.value.env.serve, store, s.link.value.sent) && TrimSpace(store.session) == store.session
  }

  lemma StoreGoesOn(serve: seq<Tpdu> -> Reply, store: Store, h: seq<Tpdu>, h': seq<Tpdu>)
    requires StoreFrom(serve, store, h) && h <= h'
    ensures StoreFrom(serve, store, h')
  {
  }

  /** After a start request the device is uploading the block it names, if it has it. */
  lemma Started(s: State, store: Store, blockType: byte, num: nat)
    requires Connected(s, store) && num <= 0xFFFF
    ensures var h, key := s.link.value.sent + [DT(StartUploadRequest(NextRef(s), blockType, num))], (TypeOf(blockType), num);
            && StoreFrom(s.link.value.env.serve, store, h)
            && UploadingAfter(store, h) == (if store.Holds(key) then Open(store.blocks[key]) else Idle)
            && Interpret(s.link.value.env.serve(h), NextRef(s))
               == if store.Holds(key) then Ok((StartAnswer(store), [])) else Err(S7Error(0xD2, 0x09))
  {
    hide Respond, UploadingAfter, StoreAnswer, StartUploadRequest, Interpret, StartAnswer;
    var l, t := s.link.value, DT(StartUploadRequest(NextRef(s), blockType, num));
    StoreNext(store, l.sent, t);
    RespondsToStart(store, UploadingAfter(store, l.sent), NextRef(s), blockType, num);
    StartIsRead(store, NextRef(s));
    StoreGoesOn(l.env.serve, store, l.sent, l.sent + [t]);
  }

  lemma SessionOnStore(s: State, store: Store, blockType: byte, num: nat)
    requires Connected(s, store) && num <= 0xFFFF
    ensures SessionId(s, blockType, num).Some? ==> store.Holds((TypeOf(blockType), num)) && SessionId(s, blockType, num).value == store.session
  {
    hide StartUploadRequest, Interpret, StoreFrom, UploadingAfter, StartAnswer, ParseStartUploadResponse;
    Started(s, store, blockType, num);
    StartIsRead(store, NextRef(s));
    var l, t := s.link.value, DT(StartUploadRequest(NextRef(s), blockType, num));
    assert (l.sent + [t])[..l.taken + 1] == l.sent + [t];
  }

  lemma {:induction false} DataOfChunks(segments: seq<Segment>, k: nat)
    requires k <= |segments|
    ensures DataOf(Chunks(segments)[k..]) == Flatten(segments[k..])
    decreases |segments| - k
  {
    if k < |segments| {
      DataOfChunks(segments, k + 1);
      assert Chunks(segments)[k..][1..] == Chunks(segments)[k + 1..] && segments[k..][1..] == segments[k + 1..];
    }
  }

  /**
   Whatever the link does: an upload that returns data returns the bytes of the block asked for, all its segments in order,
   and the device has that block.
   */
  lemma UploadIsTheBlock(s: State, store: Store, blockType: byte, num: nat)
    requires Connected(s, store) && num <= 0xFFFF
    ensures var r, key := UploadBlock(s, blockType, num).1, (TypeOf(blockType), num);
            r.Ok? ==> store.Holds(key) && r.value == Flatten(store.blocks[key])
  {
    hide StartUploadRequest, Interpret, UploadingAfter, StoreFrom, UploadChunks, ServesSegments, ParseStartUploadResponse, Chunks;
    SessionOnStore(s, store, blockType, num);
    var key := (TypeOf(blockType), num);
    if SessionId(s, blockType, num).Some? {
      var segments, l := store.blocks[key], s.link.value;
      Started(s, store, blockType, num);
      OpenServes(l.env.serve, store, l.sent + [DT(StartUploadRequest(NextRef(s), blockType, num))], segments);
      LastIsFirstDone(segments);
      UploadReturnsTheBlock(s, blockType, num, Chunks(segments), |segments|);
      DataOfChunks(segments, 0);
      assert Chunks(segments)[0..] == Chunks(segments)[..|segments|] && segments[0..] == segments;
    }
  }

  lemma LastIsFirstDone(segments: seq<Segment>)
    requires segments != []
    ensures FirstDone(Chunks(segments), 0, |segments|)
  {
  }

  // ---------------------------------------------------------------- on a link that delivers everything

  /** What the rest of an upload comes to: too many segments, no data at all, or all the data. */
  function Collected(segments: seq<Segment>, k: nat, left: nat, payload: seq<byte>): Result<seq<byte>, UploadError>
    requires k <= |segments|
  {
    if |segments| - k > left then Err(TooManyChunks)
    else if payload + Flatten(segments[k..]) == [] then Err(NoPayload)
    else Ok(payload + Flatten(segments[k..]))
  }

  lemma {:induction false} ChunksFromStore(
      s: State, h: seq<Tpdu>, id: seq<byte>, segments: seq<Segment>, k: nat, left: nat, payload: seq<byte>)
    requires Delivers(s) && RequestsFit(s.pduSize, id) && ServesSegments(s.link.value.env.serve, h, id, Chunks(segments))
    requires FramesSince(h, s.link.value.sent, id) && |s.link.value.sent| == |h| + k && k < |segments|
    ensures UploadChunks(s, id, left, payload).1 == Collected(segments, k, left, payload)
    decreases left
  {
    hide TryChunk, SessionRequest, SegmentIn, ServesSegments, Echoes, RequestsFit;
    if left > 0 {
      NextSegment(s, h, id, Chunks(segments), k);
      DeliveredSegment(s, id, MAX_UPLOAD_RETRIES, NotConnected);
      var (s1, r) := TryChunk(s, id, MAX_UPLOAD_RETRIES, NotConnected);
      assert segments[k..][1..] == segments[k + 1..];
      if k == |segments| - 1 {
        assert segments[k + 1..] == [] && segments[k] + [] == segments[k];
      } else {
        ChunksFromStore(s1, h, id, segments, k + 1, left - 1, payload + segments[k]);
        assert payload + segments[k] + Flatten(segments[k + 1..]) == payload + Flatten(segments[k..]);
      }
    }
  }

  lemma {:induction false} MisfitRunsOut(s: State, id: seq<byte>, left: nat, last: Error)
    requires Delivers(s) && !RequestsFit(s.pduSize, id)
    ensures TryChunk(s, id, left, last).1 == Err(RetriesExhausted(if left > 0 then RequestExceedsPDU else last))
    decreases left
  {
    hide SessionRequest, Echoes, Interpret;
    if left > 0 {
      var s1 := CtxErr(s).0;
      assert s.ctx(s.checks) == None;
      SessionRequestLength(FUNC_UPLOAD, NextRef(s1), id);
      var s2 := Call(s1, UploadRequest(NextRef(s1), id)).0;
      MisfitRunsOut(s2, id, left - 1, RequestExceedsPDU);
    }
  }

  /** The result of every upload on such a link. */
  lemma UploadFromStoreExactly(s: State, store: Store, blockType: byte, num: int)
    requires Connected(s, store) && Delivers(s)
    ensures var r, key := UploadBlock(s, blockType, num).1, (TypeOf(blockType), num);
            r == if num < 0 || num > 0xFFFF then Err(BlockNumberOutOfRange)
                 else if 0 < s.pduSize < 28 then Err(StartFailed(RequestExceedsPDU))
                 else if !store.Holds(key) then Err(StartFailed(S7Error(0xD2, 0x09)))
                 else if 0 < s.pduSize < 19 + |store.session| then Err(RetriesExhausted(RequestExceedsPDU))
                 else if |store.blocks[key]| > 4096 then Err(TooManyChunks)
                 else if Flatten(store.blocks[key]) == [] then Err(NoPayload)
                 else Ok(Flatten(store.blocks[key]))
  {
    hide StartUploadRequest, Interpret, UploadingAfter, StoreFrom, UploadChunks, ServesSegments, ParseStartUploadResponse, StartAnswer, Echoes;
    if 0 <= num <= 0xFFFF {
      DecodeStartRequest(NextRef(s), blockType, num);
      Started(s, store, blockType, num);
      StartIsRead(store, NextRef(s));
      StartOnStore(s, store, blockType, num);
      var key := (TypeOf(blockType), num);
      if (s.pduSize == 0 || s.pduSize >= 28) && store.Holds(key) {
        var s1 := Call(s, StartUploadRequest(NextRef(s), blockType, num)).0;
        SegmentsFromStore(s1, store, store.blocks[key]);
        assert store.blocks[key][0..] == store.blocks[key] && [] + Flatten(store.blocks[key]) == Flatten(store.blocks[key]);
      }
    }
  }

  lemma StartOnStore(s: State, store: Store, blockType: byte, num: nat)
    requires Connected(s, store) && Delivers(s) && num <= 0xFFFF
    ensures var (s1, r) := Call(s, StartUploadRequest(NextRef(s), blockType, num));
            var h := s.link.value.sent + [DT(StartUploadRequest(NextRef(s), blockType, num))];
            if 0 < s.pduSize < 28 then r == Err(RequestExceedsPDU)
            else
              && r == Interpret(s.link.value.env.serve(h), NextRef(s))
              && Delivers(s1) && s1.pduSize == s.pduSize && s1.link.value.env == s.link.value.env && s1.link.value.sent == h
  {
    hide StartUploadRequest, Interpret, Echoes;
    DecodeStartRequest(NextRef(s), blockType, num);
    var l, t := s.link.value, DT(StartUploadRequest(NextRef(s), blockType, num));
    assert l.env.io(l.clock) == Delivered;
    assert (l.sent + [t])[..l.taken + 1] == l.sent + [t];
  }

  lemma SegmentsFromStore(s: State, store: Store, segments: seq<Segment>)
    requires Delivers(s) && segments != []
    requires StoreFrom(s.link.value.env.serve, store, s.link.value.sent) && UploadingAfter(store, s.link.value.sent) == Open(segments)
    ensures UploadChunks(s, store.session, MAX_UPLOAD_CHUNKS, []).1
         == if 0 < s.pduSize < 19 + |store.session| then Err(RetriesExhausted(RequestExceedsPDU))
            else Collected(segments, 0, 4096, [])
  {
    hide TryChunk, ServesSegments, UploadingAfter, StoreFrom, Chunks, Collected, Echoes;
    var h := s.link.value.sent;
    if RequestsFit(s.pduSize, store.session) {
      OpenServes(s.link.value.env.serve, store, h, segments);
      assert h[|h|..] == [];
      ChunksFromStore(s, h, store.session, segments, 0, MAX_UPLOAD_CHUNKS, []);
    } else {
      MisfitRunsOut(s, store.session, MAX_UPLOAD_RETRIES, NotConnected);
    }
  }

  // ---------------------------------------------------------------- from the dial on

  /** The device answers with the reference of the request it answers. */
  lemma StoreEchoes(serve: seq<Tpdu> -> Reply, store: Store)
    requires StoreFrom(serve, store, [])
    ensures Echoes(serve)
  {
    hide UploadingAfter, Respond;
    forall h: seq<Tpdu>, ref: u16 | h != [] && Carries(h[|h| - 1], ref) ensures EchoesRef(serve(h), ref) {
      assert [] <= h && serve(h) == StoreAnswer(store, h);
      RespondEchoes(store, UploadingAfter(store, h[..|h| - 1]), h[|h| - 1], ref);
    }
  }

  lemma RespondEchoes(store: Store, u: Uploading, t: Tpdu, ref: u16)
    requires Carries(t, ref)
    ensures EchoesRef(Respond(store, u, t).1, ref)
  {
    hide Decode, Acknowledge, SegmentAnswer, H.SetupAnswer;
    DecodedRef(t.userData);
    AcknowledgeEchoes(ref, 0, 0, StartAnswer(store), []);
    AcknowledgeEchoes(ref, 0xD2, 0x09, [], []);
    AcknowledgeEchoes(ref, 0xD2, 0x40, [], []);
    AcknowledgeEchoes(ref, 0, 0, [0x1F], []);
    if u.Open? && u.left != [] {
      SegmentEchoes(ref, u.left[0], |u.left| == 1);
    }
    if Plc.IsSetup(t.userData) {
      var f := t.userData;
      Plc.SetupReplyEchoes(ref, Plc.Smaller(store.maxPDU, GetU16(f, 12), GetU16(f, 14), GetU16(f, 16)));
    }
  }

  lemma DecodedRef(f: seq<byte>)
    ensures var d := Decode(f); !d.NoCall? ==> |f| >= 6 && d.ref == GetU16(f, 4)
  {
    hide Number;
  }

  lemma AcknowledgeEchoes(ref: u16, errorClass: byte, errorCode: byte, param: seq<byte>, data: seq<byte>)
    requires |param| <= 300 && |data| <= 0x2003
    ensures EchoesRef(Acknowledge(ref, errorClass, errorCode, param, data), ref)
  {
    AckRoundTrip(ref, errorClass, errorCode, param, data);
  }

  lemma SegmentEchoes(ref: u16, segment: Segment, last: bool)
    ensures EchoesRef(SegmentAnswer(ref, segment, last), ref)
  {
    AcknowledgeEchoes(ref, 0, 0, [0x1E, if last then 0 else 1], [0x00, 0x04] + PutU16(8 * |segment|) + segment);
  }

  /** What it grants to a client with these options. */
  function GrantedTo(store: Store, o: H.Options): H.Setup {
    Plc.Smaller(store.maxPDU, o.maxAmqCalling % 0x1_0000, o.maxAmqCalled % 0x1_0000, o.maxPDU % 0x1_0000)
  }

  lemma HelloAnswered(store: Store, o: H.Options, local: u16, remote: u16)
    ensures var hello := H.Hello(o, local, remote);
            StoreAnswer(store, hello[..1]) == Frame(CC) && StoreAnswer(store, hello) == H.SetupAnswer(1, GrantedTo(store, o))
  {
    hide Plc.Decode, H.SetupAnswer, H.SetupRequest, Decode, UploadingAfter, StoreAnswer, PutU16;
    EndToEnd.DecodeSetupRequest(1, o);
    var hello := H.Hello(o, local, remote);
    assert hello[..1] == [] + [hello[0]] && hello == hello[..1] + [hello[1]];
    StoreNext(store, [], hello[0]);
    StoreNext(store, hello[..1], hello[1]);
    SetupIsRead(hello[1].userData);
  }

  lemma SetupIsRead(f: seq<byte>)
    ensures Plc.Decode(f).Setup? ==> Plc.IsSetup(f) && Plc.Decode(f) == Plc.Setup(GetU16(f, 4), GetU16(f, 12), GetU16(f, 14), GetU16(f, 16))
  {
  }

  /**
   Connect and upload, over a link that delivers and a context that does not end: the session opens, and when its PDU size
   takes the requests the upload brings the bytes of the block asked for, exactly if the device has it, in 1 to 4096
   segments with some data.
   */
  lemma ConnectThenUpload(o: H.Options, env: Env, store: Store, rack: int, slot: int, issued: nat, blockType: byte, num: nat)
    returns (session: H.Session)
    requires StoreFrom(env.serve, store, []) && TrimSpace(store.session) == store.session
    requires (forall n :: env.io(n) == Delivered) && H.TSAPs(o, rack, slot).Ok? && num <= 0xFFFF
    requires GrantedTo(store, o).pduSize == 0 || (GrantedTo(store, o).pduSize >= 28 && GrantedTo(store, o).pduSize >= 19 + |store.session|)
    ensures H.Attempt(o, H.Accepted(env), NEVER, 0, rack, slot) == (2, Ok(session))
    ensures var r, key := UploadBlock(session.Opened(issued, NEVER, 2), blockType, num).1, (TypeOf(blockType), num);
            && (r.Ok? <==> store.Holds(key) && |store.blocks[key]| <= 4096 && Flatten(store.blocks[key]) != [])
            && (r.Ok? ==> r.value == Flatten(store.blocks[key]))
  {
    hide UploadingAfter, StoreAnswer, H.SetupRequest, H.ReadSetup, H.SetupAnswer, H.TSAPs, H.Attempt, Echoes, UploadBlock;
    var (local, remote) := H.TSAPs(o, rack, slot).value;
    var hello := H.Hello(o, local, remote);
    HelloAnswered(store, o, local, remote);
    assert [] <= hello[..1] && [] <= hello;
    H.SetupRoundTrip(1, GrantedTo(store, o));
    session := H.OpensSession(o, env, NEVER, 0, rack, slot, GrantedTo(store, o));
    StoreEchoes(env.serve, store);
    StoreGoesOn(env.serve, store, [], hello);
    UploadFromStoreExactly(session.Opened(issued, NEVER, 2), store, blockType, num);
  }
}
