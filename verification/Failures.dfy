/**
 How a connection attempt ends, read off the event of each of its two steps and the bytes of their replies, and what a
 probe and a comparison read report for it.
 */
module Failures {
  import opened Bytes
  import opened S7
  import opened Link
  import opened Replies
  import H = Handshake
  import X = Exchange
  import RW = ReadWrite
  import PO = ProbeOne
  import CR = CompareRead
  import T = Tsap

  // ---------------------------------------------------------------- one step

  /** What one step comes to before its reply is looked at. */
  datatype StepEnd = Stopped(ctx: CtxError) | Unencoded | Broke(error: IoError) | Arrived

  function StepOf(done: Option<CtxError>, e: IoEvent): StepEnd {
    if done.Some? then Stopped(done.value) else
    match e
    case EncodeFails => Unencoded
    case SendFails(error) => Broke(error)
    case DoneAfterSend(c) => Broke(Cancelled(c))
    case ReceiveFails(error) => Broke(error)
    case Delivered => Arrived
  }

  /** The deadline passed or the network timed out. */
  predicate Late(s: StepEnd) {
    s == Stopped(DeadlineExceeded) || s == Broke(Cancelled(DeadlineExceeded)) || s == Broke(NetTimeout)
  }

  function ErrorOf(s: StepEnd): H.ConnectError
    requires !s.Arrived?
  {
    match s
    case Stopped(c) => H.ContextDone(c)
    case Unencoded => H.SendFailed(CannotEncode)
    case Broke(e) => H.SendFailed(IoFailed(e))
  }

  // ---------------------------------------------------------------- the setup reply, byte by byte

  /** What follows the header. */
  function Body(f: seq<byte>): seq<byte>
    requires Whole(f)
  {
    f[BodyAt(f)..]
  }

  /** A whole reply to the setup request, whatever it says. */
  predicate AnswersSetup(reply: Reply) {
    reply.Frame? && reply.tpdu.DT? && Whole(reply.tpdu.userData) && GetU16(reply.tpdu.userData, 4) == 1
  }

  predicate Refuses(reply: Reply) {
    AnswersSetup(reply) && !ErrorFree(reply.tpdu.userData)
  }

  /** The setup function, or nothing, in fewer than eight bytes. */
  predicate TooShort(reply: Reply) {
    && AnswersSetup(reply) && ErrorFree(reply.tpdu.userData)
    && var body := Body(reply.tpdu.userData); |body| < 8 && (body == [] || body[0] == 0xF0)
  }

  predicate Grants(reply: Reply) {
    && AnswersSetup(reply) && ErrorFree(reply.tpdu.userData)
    && var body := Body(reply.tpdu.userData); |body| >= 8 && body[0] == 0xF0
  }

  /** Another reference than the one asked with. */
  predicate Misreferenced(reply: Reply) {
    reply.Frame? && reply.tpdu.DT? && Whole(reply.tpdu.userData) && GetU16(reply.tpdu.userData, 4) != 1
  }

  predicate SetupMeans(r: Result<H.Setup, H.ConnectError>, reply: Reply) {
    if Grants(reply) then
      var body := Body(reply.tpdu.userData); r == Ok(H.Setup(GetU16(body, 2), GetU16(body, 4), GetU16(body, 6)))
    else if Refuses(reply) then r == Err(H.S7Refused(reply.tpdu.userData[10], reply.tpdu.userData[11]))
    else if TooShort(reply) then r == Err(H.ShortSetup)
    else if Misreferenced(reply) then r == Err(H.RefMismatch(GetU16(reply.tpdu.userData, 4)))
    else if AnswersSetup(reply) then r == Err(H.WrongFunction)
    else if reply.Undecodable? then r == Err(H.DecodeCOTP)
    else if !reply.tpdu.DT? then r == Err(H.UnexpectedTPDU)
    else r.Err? && r.error.BadHeader?
  }

  lemma SetupMeansIt(reply: Reply)
    ensures SetupMeans(H.ReadSetup(reply, 1), reply)
  {
    hide Parsed;
    if reply.Frame? && reply.tpdu.DT? {
      WholeExactly(reply.tpdu.userData);
    }
  }

  // ---------------------------------------------------------------- an attempt

  /** The outcome of the two steps over a connection just dialled. */
  ghost predicate AttemptMeans(r: Result<H.Setup, H.ConnectError>, env: Env, hello: seq<Tpdu>, done0: Option<CtxError>, done1: Option<CtxError>)
    requires |hello| == 2
  {
    var step0, reply0 := StepOf(done0, env.io(0)), env.serve(hello[..1]);
    if !step0.Arrived? then r == Err(ErrorOf(step0))
    else if reply0 == Undecodable then r == Err(H.DecodeCOTP)
    else if reply0 != Frame(CC) then r == Err(H.UnexpectedTPDU)
    else
      var step1 := StepOf(done1, env.io(1));
      if !step1.Arrived? then r == Err(ErrorOf(step1)) else SetupMeans(r, env.serve(hello))
  }

  /** Its two steps, as the connect and the probe both make them. */
  function Steps(env: Env, local: u16, remote: u16, o: H.Options, done0: Option<CtxError>, done1: Option<CtxError>): Result<H.Setup, H.ConnectError> {
    var (l1, failed) := H.COTPConnect(Fresh(env), done0, local, remote);
    if failed.Some? then Err(failed.value) else H.S7Setup(l1, done1, 1, o).1
  }

  lemma FirstStep(env: Env, local: u16, remote: u16, done: Option<CtxError>)
    ensures var (l1, failed) := H.COTPConnect(Fresh(env), done, local, remote);
            var step, reply := StepOf(done, env.io(0)), env.serve([CR(local, remote)]);
            && l1.env == env
            && failed == (if !step.Arrived? then Some(ErrorOf(step))
                          else if reply == Undecodable then Some(H.DecodeCOTP)
                          else if reply != Frame(CC) then Some(H.UnexpectedTPDU) else None)
            && (failed.None? ==> l1 == Link(env, 1, [CR(local, remote)], 1))
  {
    var t := CR(local, remote);
    assert [] + [t] == [t] && [t][..1] == [t];
  }

  lemma SecondStep(env: Env, cr: Tpdu, done: Option<CtxError>, o: H.Options)
    ensures var setup := DT(H.SetupRequest(1, o.maxAmqCalling, o.maxAmqCalled, o.maxPDU));
            var r, step := H.S7Setup(Link(env, 1, [cr], 1), done, 1, o).1, StepOf(done, env.io(1));
            r == if !step.Arrived? then Err(ErrorOf(step)) else H.ReadSetup(env.serve([cr, setup]), 1)
  {
    hide H.ReadSetup, H.SetupRequest;
    H.SetupRequestFits(1, o);
    var setup := DT(H.SetupRequest(1, o.maxAmqCalling, o.maxAmqCalled, o.maxPDU));
    assert [cr] + [setup] == [cr, setup] && [cr, setup][..2] == [cr, setup];
  }

  lemma StepsByEvent(env: Env, local: u16, remote: u16, o: H.Options, done0: Option<CtxError>, done1: Option<CtxError>)
    ensures AttemptMeans(Steps(env, local, remote, o, done0, done1), env, H.Hello(o, local, remote), done0, done1)
  {
    hide H.COTPConnect, H.S7Setup, H.ReadSetup, H.SetupRequest, SetupMeans;
    FirstStep(env, local, remote, done0);
    SecondStep(env, CR(local, remote), done1, o);
    var hello := H.Hello(o, local, remote);
    assert hello[..1] == [CR(local, remote)];
    SetupMeansIt(env.serve(hello));
  }

  /** How every attempt ends: by the dial, the TSAPs, and then the events and replies of its two steps. */
  lemma AttemptByEvent(o: H.Options, dial: H.DialOutcome, ctx: nat -> Option<CtxError>, checks: nat, rack: int, slot: int)
    ensures var r, tsaps := H.Attempt(o, dial, ctx, checks, rack, slot).1, H.TSAPs(o, rack, slot);
            if dial.Refused? then r == Err(H.DialFailed(dial.timedOut))
            else if tsaps.Err? then r == Err(tsaps.error)
            else
              var hello := H.Hello(o, tsaps.value.0, tsaps.value.1);
              AttemptMeans(match r case Err(e) => Err(e) case Ok(s) => Ok(s.setup), dial.env, hello, ctx(checks), ctx(checks + 1))
  {
    hide H.COTPConnect, H.S7Setup, H.TSAPs, AttemptMeans;
    if dial.Accepted? && H.TSAPs(o, rack, slot).Ok? {
      var (local, remote) := H.TSAPs(o, rack, slot).value;
      StepsByEvent(dial.env, local, remote, o, ctx(checks), ctx(checks + 1));
    }
  }

  // ---------------------------------------------------------------- what a probe makes of it

  lemma ProbedBySteps(env: Env, req: PO.Request, ctx: nat -> Option<CtxError>, rack: int, slot: int)
    requires PO.RemoteTSAP(req, rack, slot).Ok?
    ensures var status := PO.Probed(H.Accepted(env), req, ctx, rack, slot).c.status;
            var local, remote := PO.LocalTSAP(req), PO.RemoteTSAP(req, rack, slot).value;
            var first, all := H.COTPConnect(Fresh(env), ctx(0), local, remote).1, Steps(env, local, remote, PO.SETUP_OPTIONS, ctx(0), ctx(1));
            if first.Some? then status == if PO.IsProbeTimeout(first.value) then PO.TimedOut else PO.TCPOnly
            else if all.Err? then status == PO.SetupFailure(all.error)
            else if !req.strict then status == PO.SetupOnly
            else status == PO.ValidConnect || status == PO.ValidQuery
  {
    hide H.COTPConnect, H.S7Setup, PO.RunFollowUp, PO.IsProbeTimeout;
    assert PO.SETUP_REF == 1;
  }

  /** The status of a probe, by the same events and replies. */
  lemma ProbeByEvent(dial: H.DialOutcome, req: PO.Request, ctx: nat -> Option<CtxError>, rack: int, slot: int)
    ensures var status := PO.Probed(dial, req, ctx, rack, slot).c.status;
            if dial.Refused? then status == if dial.timedOut then PO.TimedOut else PO.Unreachable
            else if PO.RemoteTSAP(req, rack, slot).Err? then status == PO.Rejected
            else
              var hello := H.Hello(PO.SETUP_OPTIONS, PO.LocalTSAP(req), PO.RemoteTSAP(req, rack, slot).value);
              var step0, step1 := StepOf(ctx(0), dial.env.io(0)), StepOf(ctx(1), dial.env.io(1));
              if !step0.Arrived? then status == if Late(step0) then PO.TimedOut else PO.TCPOnly
              else if dial.env.serve(hello[..1]) != Frame(CC) then status == PO.TCPOnly
              else if !step1.Arrived? then status == if Late(step1) then PO.TimedOut else PO.COTPOnly
              else
                var reply := dial.env.serve(hello);
                if Refuses(reply) || TooShort(reply) then status == PO.Rejected
                else if !Grants(reply) then status == PO.COTPOnly
                else if !req.strict then status == PO.SetupOnly
                else status == PO.ValidConnect || status == PO.ValidQuery
  {
    hide H.COTPConnect, H.S7Setup, H.ReadSetup, H.SetupRequest, PO.RunFollowUp, Steps;
    if dial.Accepted? && PO.RemoteTSAP(req, rack, slot).Ok? {
      var local, remote := PO.LocalTSAP(req), PO.RemoteTSAP(req, rack, slot).value;
      ProbedBySteps(dial.env, req, ctx, rack, slot);
      hide PO.Probed;
      assert dial == H.Accepted(dial.env);
      assert H.Hello(PO.SETUP_OPTIONS, local, remote)[..1] == [CR(local, remote)];
      FirstStep(dial.env, local, remote, ctx(0));
      StepsByEvent(dial.env, local, remote, PO.SETUP_OPTIONS, ctx(0), ctx(1));
    }
  }

  /** How far the report says the probe got, and with what confidence. */
  lemma ReportedStage(dial: H.DialOutcome, req: PO.Request, ctx: nat -> Option<CtxError>, rack: int, slot: int)
    ensures var r := PO.Probed(dial, req, ctx, rack, slot);
            && (r.stage == PO.TCP <==> r.c.status == PO.Unreachable || dial == H.Refused(true))
            && (r.stage == PO.Query <==> r.c.status == PO.ValidConnect || r.c.status == PO.ValidQuery)
            && (r.c.status == PO.TCPOnly ==> r.stage == PO.COTP)
            && (r.c.status == PO.COTPOnly || r.c.status == PO.SetupOnly ==> r.stage == PO.SetupStage)
            && (r.confidence == PO.High <==> r.c.status == PO.ValidQuery)
            && (r.confidence == PO.Low <==> r.c.status == PO.SetupOnly || r.c.status == PO.ValidConnect)
            && (!PO.SetupDone(r.c.status) ==> r.c.pduSize == 0)
  {
    hide H.COTPConnect, H.S7Setup, PO.RunFollowUp, PO.IsProbeTimeout;
  }

  /** A reply confirms exactly if it answers under reference 2, without an error, with an SZL header its data can hold. */
  lemma ConfirmsExactly(reply: Reply)
    ensures PO.Confirms(reply)
            <==> Answers(reply, 2) && var data := DataOf(reply.tpdu.userData);
                                      |data| >= 8 && data[0] == 0xFF && 4 <= GetU16(data, 2) && 4 + GetU16(data, 2) <= |data|
  {
    hide X.Interpret;
    AcceptedExactly(reply, 2);
  }

  /** A query as a device reads it: user data to read one SZL, index 0. */
  predicate AsksFor(f: seq<byte>, szlId: u16) {
    && |f| == 26 && f[0] == 0x32 && f[1] == 0x07 && GetU16(f, 4) == 2 && GetU16(f, 6) == 8 && GetU16(f, 8) == 8
    && f[10..18] == [0x00, 0x01, 0x12, 0x04, 0x44, 0x01, 0x00, 0x00]
    && f[18] == 0xFF && f[19] == 0x09 && GetU16(f, 20) == 4 && GetU16(f, 22) == szlId && GetU16(f, 24) == 0
  }

  lemma QueryAsks(szlId: u16)
    ensures AsksFor(PO.SZLRequest(PO.FOLLOW_UP_REF, szlId), szlId)
  {
    hide PutU16;
    var f, param, data := PO.SZLRequest(PO.FOLLOW_UP_REF, szlId), [0x00, 0x01, 0x12, 0x04, 0x44, 0x01, 0x00, 0x00], [0xFF, 0x09] + PutU16(4) + PutU16(szlId) + PutU16(0);
    var g := HeaderBytes(ROSCTR_USERDATA, PO.FOLLOW_UP_REF, 8, 8) + (param + data);
    assert f == g;
    FieldsOfHeader(ROSCTR_USERDATA, PO.FOLLOW_UP_REF, 8, 8, param + data);
    U16RoundTrip(4);
    U16RoundTrip(szlId);
    U16RoundTrip(0);
    assert f[10..18] == param && f[18..26] == data;
    assert forall i :: 18 <= i < 26 ==> f[i] == data[i - 18];
    assert data[2] == PutU16(4)[0] && data[3] == PutU16(4)[1] && data[4] == PutU16(szlId)[0] && data[5] == PutU16(szlId)[1];
    assert data[6] == PutU16(0)[0] && data[7] == PutU16(0)[1];
  }

  /** A confirmation is named after the SZL its last query asked for: the module identification, the CPU state, or else the protection. */
  lemma ConfirmationNamesItsQuery(l: Link, strategy: PO.Kind)
    requires l.Valid() && l.Lag() == 0
    ensures var (l', k) := PO.RunFollowUp(l, strategy);
            k.Some? ==> |l'.sent| > 0 && l'.sent[|l'.sent| - 1].DT?
                        && AsksFor(l'.sent[|l'.sent| - 1].userData,
                                   if k.value == PO.ConfirmSZL then 0x0011 else if k.value == PO.ConfirmCPUState then 0x0424 else 0x0232)
  {
    hide PO.SZLRequest, PO.Confirms, PO.RunFollowUp, AsksFor;
    PO.ConfirmedByIsRightExactly(l, strategy);
    var k := PO.RunFollowUp(l, strategy).1;
    if k.Some? {
      QueryAsks(PO.Named(k.value));
    }
  }

  /** One query of the follow-up: 0x0011 is the module identification, 0x0424 the CPU state, 0x0232 the protection. */
  function Query(szlId: u16): Tpdu {
    DT(PO.SZLRequest(2, szlId))
  }

  lemma DeliveredQuery(l: Link, szlId: u16)
    requires l.Valid() && l.Lag() == 0 && l.env.io(l.clock) == Delivered
    ensures PO.TrySZL(l, szlId)
         == (l.(clock := l.clock + 1, sent := l.sent + [Query(szlId)], taken := l.taken + 1), PO.Confirms(l.env.serve(l.sent + [Query(szlId)])))
  {
    hide PO.Confirms;
    PO.SZLIdAt(szlId);
    hide PO.SZLRequest;
    assert (l.sent + [Query(szlId)])[..l.taken + 1] == l.sent + [Query(szlId)];
  }

  /**
   Over a link that delivers, the kinds name one query each, and "any" makes the three in order until one is confirmed and
   is named after it; every other kind asks nothing and confirms nothing.
   */
  lemma FollowUpTriesInOrder(l: Link, strategy: PO.Kind)
    requires l.Valid() && l.Lag() == 0 && forall n :: n >= l.clock ==> l.env.io(n) == Delivered
    ensures var (l', k) := PO.RunFollowUp(l, strategy);
            var one, two, three := [Query(0x0011)], [Query(0x0011), Query(0x0424)], [Query(0x0011), Query(0x0424), Query(0x0232)];
            var serve := l.env.serve;
            match strategy
            case ConfirmSZL => l'.sent == l.sent + one && k == if PO.Confirms(serve(l.sent + one)) then Some(PO.ConfirmSZL) else None
            case ConfirmCPUState =>
              l'.sent == l.sent + [Query(0x0424)]
              && k == if PO.Confirms(serve(l.sent + [Query(0x0424)])) then Some(PO.ConfirmCPUState) else None
            case ConfirmAny =>
              if PO.Confirms(serve(l.sent + one)) then l'.sent == l.sent + one && k == Some(PO.ConfirmSZL)
              else if PO.Confirms(serve(l.sent + two)) then l'.sent == l.sent + two && k == Some(PO.ConfirmCPUState)
              else l'.sent == l.sent + three && k == if PO.Confirms(serve(l.sent + three)) then Some(PO.ConfirmAny) else None
            case _ => l' == l && k == None
  {
    hide PO.TrySZL, PO.Confirms, Query;
    var a, b, c := Query(0x0011), Query(0x0424), Query(0x0232);
    assert l.sent + [a] + [b] == l.sent + [a, b] && l.sent + [a, b] + [c] == l.sent + [a, b, c];
    match strategy
    case ConfirmSZL => DeliveredQuery(l, 0x0011);
    case ConfirmCPUState => DeliveredQuery(l, 0x0424);
    case ConfirmAny =>
      DeliveredQuery(l, 0x0011);
      var l1 := PO.TrySZL(l, 0x0011).0;
      DeliveredQuery(l1, 0x0424);
      var l2 := PO.TrySZL(l1, 0x0424).0;
      DeliveredQuery(l2, 0x0232);
    case _ =>
  }

  // ---------------------------------------------------------------- what a comparison read makes of it

  /** The status of a comparison read whose connection does not open, by the same; nothing is read then. */
  lemma ComparedByEvent(dial: H.DialOutcome, ctx: nat -> Option<CtxError>, addr: RW.Address, rack: int, slot: int)
    ensures var c := CR.Compared(dial, ctx, addr, rack, slot);
            var o := H.PairOptions(rack, slot);
            && (c.rack, c.slot) == (rack, slot)
            && (H.ConnectPair(dial, ctx, rack, slot).1.Err? ==> c.data == [])
            && (H.ConnectPair(dial, ctx, rack, slot).1.Ok? && (addr.start < 0 || addr.size < 0 || (addr.area == 0x84 && addr.dbNumber < 0)) ==>
                  c.status == RW.TransportErr && c.data == [])
            && if T.ValidateRackSlot(rack, slot).Some? then c.status == RW.TransportErr
               else if dial.Refused? then c.status == if dial.timedOut then RW.Timeout else RW.TransportErr
               else
                 H.TSAPs(o, rack, slot).Ok?
                 && var hello := H.Hello(o, H.TSAPs(o, rack, slot).value.0, H.TSAPs(o, rack, slot).value.1);
                 var step0, step1 := StepOf(ctx(0), dial.env.io(0)), StepOf(ctx(1), dial.env.io(1));
                 if !step0.Arrived? then c.status == StepStatus(step0)
                 else if dial.env.serve(hello[..1]) != Frame(CC) then c.status == RW.ProtocolErr
                 else if !step1.Arrived? then c.status == StepStatus(step1)
                 else
                   var reply := dial.env.serve(hello);
                   if Refuses(reply) || TooShort(reply) then c.status == RW.Rejected
                   else if Misreferenced(reply) then c.status == RW.TransportErr
                   else if !Grants(reply) then c.status == RW.ProtocolErr
                   else H.ConnectPair(dial, ctx, rack, slot).1.Ok?
  {
    hide H.Attempt, H.TSAPs, H.ReadSetup, H.SetupRequest, RW.ReadChunks;
    AttemptByEvent(H.PairOptions(rack, slot), dial, ctx, 0, rack, slot);
    DerivedExist(H.PairOptions(rack, slot), rack, slot);
  }

  lemma DerivedExist(o: H.Options, rack: int, slot: int)
    requires !o.useExplicit
    ensures H.TSAPs(o, rack, slot).Ok? <==> T.ValidateRackSlot(rack, slot).None?
  {
  }

  function StepStatus(s: StepEnd): RW.ReadStatus {
    if Late(s) then RW.Timeout else if s == Unencoded then RW.ProtocolErr else RW.TransportErr
  }
}
