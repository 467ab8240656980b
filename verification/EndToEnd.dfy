/** From the dial to the data: the byte-array device opens a session, and the operations of that session see its memory. */
module EndToEnd {
  import opened Bytes
  import opened S7
  import opened PduReadWrite
  import opened Link
  import opened Exchange
  import opened ReadWrite
  import opened Plc
  import opened ReadAfterWrite
  import H = Handshake
  import RS = RangeScan
  import SD = ScanOnDevice

  /** The device reads every setup request back, its parameters modulo 65536. */
  lemma DecodeSetupRequest(ref: u16, o: H.Options)
    ensures Decode(H.SetupRequest(ref, o.maxAmqCalling, o.maxAmqCalled, o.maxPDU))
         == Setup(ref, o.maxAmqCalling % 0x1_0000, o.maxAmqCalled % 0x1_0000, o.maxPDU % 0x1_0000)
  {
    hide PutU16;
    var a, b, c := PutU16(o.maxAmqCalling), PutU16(o.maxAmqCalled), PutU16(o.maxPDU);
    var param := [0xF0, 0x00] + a + b + c;
    var f := HeaderBytes(ROSCTR_JOB, ref, 8, 0) + param;
    assert H.SetupRequest(ref, o.maxAmqCalling, o.maxAmqCalled, o.maxPDU) == f;
    FieldsOfHeader(ROSCTR_JOB, ref, 8, 0, param);
    U16RoundTrip(o.maxAmqCalling);
    U16RoundTrip(o.maxAmqCalled);
    U16RoundTrip(o.maxPDU);
    assert f[12] == a[0] && f[13] == a[1] && f[14] == b[0] && f[15] == b[1] && f[16] == c[0] && f[17] == c[1];
  }

  /** What the device grants to a client with these options. */
  function GrantedTo(cfg: Config, o: H.Options): H.Setup {
    Granted(cfg, o.maxAmqCalling % 0x1_0000, o.maxAmqCalled % 0x1_0000, o.maxPDU % 0x1_0000)
  }

  lemma HelloAnswered(cfg: Config, mem: Memory, o: H.Options, local: u16, remote: u16)
    ensures var hello := H.Hello(o, local, remote);
            && Answer(cfg, mem, hello[..1]) == Frame(CC) && MemoryAfter(cfg, mem, hello) == mem
            && Answer(cfg, mem, hello) == H.SetupAnswer(1, GrantedTo(cfg, o))
  {
    hide Act, H.SetupRequest, H.SetupAnswer, MemoryAfter, Answer;
    ActsOnHello(cfg, mem, o, local, remote);
    var hello := H.Hello(o, local, remote);
    assert hello[..1] == [] + [hello[0]] && hello == hello[..1] + [hello[1]];
    NothingSent(cfg, mem);
    AnswerToNext(cfg, mem, [], hello[0]);
    AnswerToNext(cfg, mem, hello[..1], hello[1]);
  }

  lemma ActsOnHello(cfg: Config, mem: Memory, o: H.Options, local: u16, remote: u16)
    ensures Act(cfg, mem, CR(local, remote)) == (mem, Frame(CC))
    ensures Act(cfg, mem, DT(H.SetupRequest(1, o.maxAmqCalling, o.maxAmqCalled, o.maxPDU))) == (mem, H.SetupAnswer(1, GrantedTo(cfg, o)))
  {
    hide Decode, H.SetupAnswer, H.SetupRequest;
    DecodeSetupRequest(1, o);
  }

  lemma NothingSent(cfg: Config, mem: Memory)
    ensures MemoryAfter(cfg, mem, []) == mem
  {
  }

  /** A connection asked for with these options is one to that device: always if there is no other, or if its address leads there. */
  ghost predicate LeadsTo(serve: seq<Tpdu> -> Reply, cfg: Config, mem: Memory, o: H.Options, rack: int, slot: int) {
    Echoes(serve) && match H.TSAPs(o, rack, slot) case Err(_) => true case Ok((local, remote)) => PlcFrom(serve, cfg, mem, [CR(local, remote)])
  }

  lemma PlcAlwaysAnswers(serve: seq<Tpdu> -> Reply, cfg: Config, mem: Memory, o: H.Options, rack: int, slot: int)
    requires IsPlc(serve, cfg, mem)
    ensures LeadsTo(serve, cfg, mem, o, rack, slot)
  {
    hide Answer;
    PlcEchoes(serve, cfg, mem);
  }

  /**
   Every session opened with the device, however it was opened, starts quiet, with the memory untouched and the
   PDU size the smaller of the two asked for and allowed.
   */
  lemma SessionIsQuiet(o: H.Options, env: Env, cfg: Config, mem: Memory, ctx: nat -> Option<CtxError>, checks: nat,
                       rack: int, slot: int, issued: nat)
    requires LeadsTo(env.serve, cfg, mem, o, rack, slot)
    ensures var (checks', r) := H.Attempt(o, H.Accepted(env), ctx, checks, rack, slot);
            r.Ok? ==>
              var s := r.value.Opened(issued, ctx, checks');
              && Quiet(s, cfg, mem) && MemoryAfter(cfg, mem, Sent(s)) == mem
              && r.value.setup == GrantedTo(cfg, o) && s.pduSize == GrantedTo(cfg, o).pduSize
  {
    hide Answer, MemoryAfter, H.SetupRequest, H.ReadSetup, H.SetupAnswer, H.TSAPs;
    var (checks', r) := H.Attempt(o, H.Accepted(env), ctx, checks, rack, slot);
    H.SessionIsNegotiated(o, H.Accepted(env), ctx, checks, rack, slot);
    if r.Ok? {
      HelloAnswered(cfg, mem, o, r.value.localTSAP, r.value.remoteTSAP);
      H.SetupRoundTrip(1, GrantedTo(cfg, o));
      var hello := H.Hello(o, r.value.localTSAP, r.value.remoteTSAP);
      assert r.value.link.sent == hello && hello[..2] == hello;
      assert [hello[0]] <= hello && r.value.link.ReplyAt(1) == env.serve(hello);
      HelloLeadsOn(env.serve, cfg, mem, hello);
    }
  }

  lemma HelloLeadsOn(serve: seq<Tpdu> -> Reply, cfg: Config, mem: Memory, hello: seq<Tpdu>)
    requires |hello| == 2 && PlcFrom(serve, cfg, mem, [hello[0]])
    ensures PlcFrom(serve, cfg, mem, hello[..2])
  {
    forall h: seq<Tpdu> | hello[..2] <= h ensures serve(h) == Answer(cfg, mem, h) {
      assert [hello[0]] <= h;
    }
  }

  /** And one is opened whenever the two handshake steps are delivered. */
  lemma SessionOpens(o: H.Options, env: Env, cfg: Config, mem: Memory, ctx: nat -> Option<CtxError>, checks: nat, rack: int, slot: int)
    returns (s: H.Session)
    requires LeadsTo(env.serve, cfg, mem, o, rack, slot) && H.TSAPs(o, rack, slot).Ok?
    requires env.io(0) == Delivered && env.io(1) == Delivered && ctx(checks) == None && ctx(checks + 1) == None
    ensures H.Attempt(o, H.Accepted(env), ctx, checks, rack, slot) == (checks + 2, Ok(s)) && s.link.clock == 2 && s.link.env == env
  {
    hide Answer, MemoryAfter, H.SetupRequest, H.ReadSetup, H.SetupAnswer, H.TSAPs;
    var (local, remote) := H.TSAPs(o, rack, slot).value;
    HelloAnswered(cfg, mem, o, local, remote);
    H.SetupRoundTrip(1, GrantedTo(cfg, o));
    assert [CR(local, remote)] <= H.Hello(o, local, remote)[..1];
    s := H.OpensSession(o, env, ctx, checks, rack, slot, GrantedTo(cfg, o));
  }

  /**
   Connect, write, read: over a link that delivers and a context that does not end, the session opens, and with the PDU
   size it negotiates the write and the read of the same range succeed, the read brings the bytes written, and the
   device's memory is what it was with just those bytes in place.
   */
  lemma ConnectWriteRead(o: H.Options, env: Env, cfg: Config, mem: Memory, rack: int, slot: int, issued: nat, addr: Address, data: seq<byte>)
    returns (session: H.Session)
    requires LeadsTo(env.serve, cfg, mem, o, rack, slot) && (forall n :: env.io(n) == Delivered) && H.TSAPs(o, rack, slot).Ok?
    requires addr.size == |data| && 0 <= addr.dbNumber < 0x1_0000 && 0 <= addr.start && addr.start + |data| <= ADDRESSABLE
    requires InRange(mem, (addr.area, addr.dbNumber), addr.start, |data|)
    requires var pduSize := GrantedTo(cfg, o).pduSize;
             && WriteFits(pduSize, |data|) && FitsPDU(pduSize, READ_VAR_REQUEST_OVERHEAD)
             && Writable(pduSize, |data|) && Readable(pduSize, |data|)
    ensures H.Attempt(o, H.Accepted(env), NEVER, 0, rack, slot) == (2, Ok(session))
    ensures var (s1, failed) := WriteArea(session.Opened(issued, NEVER, 2), addr, data);
            var (s2, r) := ReadArea(s1, addr);
            && failed.None? && r.Ok? && r.value.status == Success && r.value.data == data
            && s2.link.Some? && MemoryAfter(cfg, mem, Sent(s2)) == Stored(mem, (addr.area, addr.dbNumber), addr.start, data)
  {
    session := SessionOpens(o, env, cfg, mem, NEVER, 0, rack, slot);
    SessionIsQuiet(o, env, cfg, mem, NEVER, 0, rack, slot, issued);
    hide H.Attempt, H.TSAPs, MemoryAfter, WriteArea, ReadArea;
    ReadAfterWriteSucceeds(session.Opened(issued, NEVER, 2), cfg, mem, addr, data);
  }

  /** Whatever the link and the context do after the dial, what a session's write leaves behind is a prefix of its data. */
  lemma ConnectThenWrite(o: H.Options, env: Env, cfg: Config, mem: Memory, ctx: nat -> Option<CtxError>, checks: nat,
                         rack: int, slot: int, issued: nat, addr: Address, data: seq<byte>) returns (landed: nat)
    requires LeadsTo(env.serve, cfg, mem, o, rack, slot) && H.Attempt(o, H.Accepted(env), ctx, checks, rack, slot).1.Ok?
    requires addr.size >= 0 && 0 <= addr.dbNumber < 0x1_0000 && 0 <= addr.start && addr.start + |data| <= ADDRESSABLE
    ensures var (checks', r) := H.Attempt(o, H.Accepted(env), ctx, checks, rack, slot);
            var s' := WriteArea(r.value.Opened(issued, ctx, checks'), addr, data).0;
            Landed(s', cfg, mem, mem, (addr.area, addr.dbNumber), addr.start, data, landed)
  {
    SessionIsQuiet(o, env, cfg, mem, ctx, checks, rack, slot, issued);
    var (checks', r) := H.Attempt(o, H.Accepted(env), ctx, checks, rack, slot);
    hide H.Attempt, MemoryAfter, WriteArea;
    landed := WriteLandsAsPrefix(r.value.Opened(issued, ctx, checks'), cfg, mem, addr, data);
  }

  /** Connect and scan: every probe of the session tells exactly what of the device's memory is there. */
  lemma ConnectThenScan(o: H.Options, env: Env, cfg: Config, mem: Memory, rack: int, slot: int, issued: nat, req: RS.RangeProbeRequest)
    returns (session: H.Session)
    requires LeadsTo(env.serve, cfg, mem, o, rack, slot) && (forall n :: env.io(n) == Delivered) && H.TSAPs(o, rack, slot).Ok?
    requires 0 <= req.dbNumber < 0x1_0000 && 0 <= req.start && req.end + RS.Width(req) <= ADDRESSABLE
    requires FitsPDU(GrantedTo(cfg, o).pduSize, READ_VAR_REQUEST_OVERHEAD)
    ensures H.Attempt(o, H.Accepted(env), NEVER, 0, rack, slot) == (2, Ok(session))
    ensures var (s', obs) := RS.ProbeFrom(session.Opened(issued, NEVER, 2), req, req.start, []);
            && obs.Some? && s'.link.Some? && MemoryAfter(cfg, mem, Sent(s')) == mem
            && forall k :: 0 <= k < |obs.value| ==> SD.Found(obs.value[k], req, SD.View(mem, GrantedTo(cfg, o).pduSize, cfg.RefusesReadably()))
  {
    session := SessionOpens(o, env, cfg, mem, NEVER, 0, rack, slot);
    SessionIsQuiet(o, env, cfg, mem, NEVER, 0, rack, slot, issued);
    hide H.Attempt, H.TSAPs, MemoryAfter, RS.ProbeFrom, RS.MaximalPartition, SD.Found;
    SD.ScanFindsTheMemory(session.Opened(issued, NEVER, 2), cfg, mem, req, [], []);
  }

  // ---------------------------------------------------------------- a hole, from the dial on

  /** One byte written, its reply left unread: the write has landed, one good acknowledgement is owed. */
  lemma UnreadWrite(s: State, cfg: Config, mem: Memory, addr: Address, byte0: byte)
    requires Quiet(s, cfg, mem) && s.pduSize == 8220 && Wide(s, addr, 1) && addr.size >= 0 && s.ctx == NEVER
    requires s.link.value.env.io(s.link.value.clock) == ReceiveFails(NetTimeout)
    requires InRange(MemoryAfter(cfg, mem, Sent(s)), (addr.area, addr.dbNumber), addr.start, 1)
    ensures var s' := WriteArea(s, addr, [byte0]).0;
            && Wired(s', cfg, mem) && s'.link.value.Lag() == 1 && s'.issued == s.issued + 1 && s'.pduSize == s.pduSize && s'.ctx == NEVER
            && s'.link.value.env == s.link.value.env && s'.link.value.clock == s.link.value.clock + 1
            && MemoryAfter(cfg, mem, Sent(s')) == Stored(MemoryAfter(cfg, mem, Sent(s)), (addr.area, addr.dbNumber), addr.start, [byte0])
            && var r := Interpret(s'.link.value.ReplyAt(s'.link.value.taken), 0); r.Ok? && ParseWriteVarResponse(r.value.0, r.value.1).None?
  {
    hide MemoryAfter, Act, Interpret, ParseWriteVarResponse, WriteRequest;
    var data, max := [byte0], MaxWritePayload(s.pduSize);
    OneBytePlan(max);
    var l, now, key := s.link.value, MemoryAfter(cfg, mem, Sent(s)), (addr.area, addr.dbNumber);
    var s1 := CtxErr(CtxErr(s).0).0;
    var a := S7AnyAddress(addr.area, addr.dbNumber, addr.start + 0, 1);
    assert data[0..0 + 1] == data && [1][1..] == [];
    var req := WriteRequest(NextRef(s1), a, data);
    RequestSizes(NextRef(s1), a, data);
    CallOnPlc(s1, cfg, mem, req);
    PlcAnswersWrite(cfg, now, NextRef(s1), a, data);
    var s2 := Call(s1, req).0;
    assert WriteChunk(CtxErr(s).0, a, data).0 == s2;
    assert WriteArea(s, addr, data).0 == s2;
    var l' := s2.link.value;
    assert l'.sent == l.sent + [DT(req)] && l'.sent[..l.taken + 1] == l'.sent;
    AnswerToNext(cfg, mem, l.sent, DT(req));
    AnyReferenceDoes(l'.ReplyAt(l.taken), NextRef(s1));
  }

  lemma OneBytePlan(max: int)
    requires max == 8192
    ensures Plan(1, max) == [1]
  {
  }

  lemma AnyReferenceDoes(reply: Reply, ref: u16)
    ensures Interpret(reply, ref).Ok? ==> Interpret(reply, 0) == Interpret(reply, ref)
  {
  }

  /**
   So it does happen: in a session with a PDU size of 8220, opened after 65534 requests, one byte is written and its reply
   times out; the next write, of 8193 bytes, leaves the byte and a hole of 8191 behind it, and only its last byte lands.
   */
  lemma WriteLeavesAHole(o: H.Options, env: Env, cfg: Config, mem: Memory, rack: int, slot: int, addr: Address, byte0: byte, data: seq<byte>)
    returns (session: H.Session)
    requires LeadsTo(env.serve, cfg, mem, o, rack, slot) && H.TSAPs(o, rack, slot).Ok? && GrantedTo(cfg, o).pduSize == 8220
    requires env.io(2) == ReceiveFails(NetTimeout) && forall n :: n != 2 ==> env.io(n) == Delivered
    requires |data| == 8193 && addr.size >= 0 && 0 <= addr.dbNumber < 0x1_0000 && 0 <= addr.start && addr.start + |data| <= ADDRESSABLE
    requires InRange(mem, (addr.area, addr.dbNumber), addr.start, |data|)
    ensures H.Attempt(o, H.Accepted(env), NEVER, 0, rack, slot) == (2, Ok(session))
    ensures var s1 := WriteArea(session.Opened(0xFFFE, NEVER, 2), addr, [byte0]).0;
            var s2 := WriteArea(s1, addr, data).0;
            var key := (addr.area, addr.dbNumber);
            s2.link.Some? && MemoryAfter(cfg, mem, Sent(s2))
            == Stored(Stored(mem, key, addr.start, [byte0]), key, addr.start + 8192, data[8192..])
  {
    session := SessionOpens(o, env, cfg, mem, NEVER, 0, rack, slot);
    SessionIsQuiet(o, env, cfg, mem, NEVER, 0, rack, slot, 0xFFFE);
    hide H.Attempt, H.TSAPs, MemoryAfter, WriteArea, GrantedTo;
    HoleAfterTimeout(session.Opened(0xFFFE, NEVER, 2), cfg, mem, addr, byte0, data);
  }

  lemma HoleAfterTimeout(s: State, cfg: Config, mem: Memory, addr: Address, byte0: byte, data: seq<byte>)
    requires Quiet(s, cfg, mem) && s.pduSize == 8220 && s.issued == 0xFFFE && s.ctx == NEVER
    requires s.link.value.env.io(s.link.value.clock) == ReceiveFails(NetTimeout)
    requires forall n :: n > s.link.value.clock ==> s.link.value.env.io(n) == Delivered
    requires |data| == 8193 && addr.size >= 0 && Wide(s, addr, |data|)
    requires InRange(MemoryAfter(cfg, mem, Sent(s)), (addr.area, addr.dbNumber), addr.start, |data|)
    ensures var s1 := WriteArea(s, addr, [byte0]).0;
            var s2 := WriteArea(s1, addr, data).0;
            var key := (addr.area, addr.dbNumber);
            s2.link.Some? && MemoryAfter(cfg, mem, Sent(s2))
            == Stored(Stored(MemoryAfter(cfg, mem, Sent(s)), key, addr.start, [byte0]), key, addr.start + 8192, data[8192..])
  {
    hide MemoryAfter, WriteArea, Interpret, ParseWriteVarResponse;
    UnreadWrite(s, cfg, mem, addr, byte0);
    var s1 := WriteArea(s, addr, [byte0]).0;
    assert Calm(s1) && NextRef(s1) == 0;
    LongChunkCanLeaveAHole(s1, cfg, mem, addr, data);
  }
}
