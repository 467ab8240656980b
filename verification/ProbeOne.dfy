/** client/probe.go: probing one rack/slot pair, stage by stage, and the follow-up query that confirms it. */
module ProbeOne {
  import opened Bytes
  import opened S7
  import opened Link
  import opened Tsap
  import H = Handshake
  import X = Exchange

  const SZL_MODULE_ID: u16 := 0x0011
  const SZL_CPU_STATE: u16 := 0x0424
  const SZL_PROTECTION_INFO: u16 := 0x0232

  const SETUP_REF: u16 := 1
  const FOLLOW_UP_REF: u16 := 2

  /** ConfirmationKind is a string: its zero value is none of the named kinds. */
  datatype Kind = Unset | ConfirmNone | ConfirmSZL | ConfirmCPUState | ConfirmAny | OtherKind
  datatype Stage = NoStage | TCP | COTP | SetupStage | Query
  datatype Confidence = NoConfidence | Low | High

  datatype Request = Request(localTSAP: Option<u16>, remoteTSAP: Option<u16>, strict: bool, confirm: Kind)

  datatype ProbeStatus =
    | NoStatus | Unreachable | TCPOnly | COTPOnly | SetupOnly | ValidConnect | ValidQuery | Rejected | TimedOut | Flaky

  datatype Candidate = Candidate(rack: int, slot: int, status: ProbeStatus, pduSize: nat)

  predicate SetupDone(s: ProbeStatus) {
    s == SetupOnly || s == ValidConnect || s == ValidQuery
  }

  predicate CountsAsValid(strict: bool, c: Candidate) {
    if strict then c.status == ValidQuery else SetupDone(c.status)
  }

  /** The candidate's fields beyond those the fan-out looks at. */
  datatype Report = Report(c: Candidate, stage: Stage, local: u16, remote: u16, confirmedBy: Kind, confidence: Confidence)

  // ---------------------------------------------------------------- the follow-up query

  function SZLRequest(pduRef: u16, szlId: u16): seq<byte> {
    HeaderBytes(ROSCTR_USERDATA, pduRef, 8, 8)
    + [0x00, 0x01, 0x12, 0x04, 0x44, 0x01, 0x00, 0x00]
    + [0xFF, 0x09] + PutU16(4) + PutU16(szlId) + PutU16(0)
  }

  predicate SZLDataAccepted(data: seq<byte>) {
    |data| >= 8 && data[0] == 0xFF && 8 <= 4 + GetU16(data, 2) <= |data|
  }

  /** A reply the query takes for its own: right reference, no error, and an SZL the parser accepts. */
  predicate Confirms(reply: Reply) {
    match X.Interpret(reply, FOLLOW_UP_REF)
    case Err(_) => false
    case Ok((_, data)) => SZLDataAccepted(data)
  }

  function TrySZL(l: Link, szlId: u16): (r: (Link, bool))
    requires l.Valid()
    ensures r.0.Valid() && r.0.env == l.env && l.sent <= r.0.sent && l.taken <= r.0.taken && r.0.Lag() >= l.Lag()
    ensures r.1 ==> r.0.sent == l.sent + [DT(SZLRequest(FOLLOW_UP_REF, szlId))] && r.0.Lag() == l.Lag()
                    && r.0.taken == l.taken + 1 && Confirms(r.0.ReplyAt(l.taken))
  {
    var (l', got) := Transfer(l, DT(SZLRequest(FOLLOW_UP_REF, szlId)));
    (l', got.Ok? && Confirms(got.value))
  }

  function RunFollowUp(l: Link, strategy: Kind): (r: (Link, Option<Kind>))
    requires l.Valid()
    ensures r.0.Valid() && r.0.env == l.env
  {
    match strategy
    case ConfirmSZL => var (l1, ok) := TrySZL(l, SZL_MODULE_ID); (l1, if ok then Some(ConfirmSZL) else None)
    case ConfirmCPUState => var (l1, ok) := TrySZL(l, SZL_CPU_STATE); (l1, if ok then Some(ConfirmCPUState) else None)
    case ConfirmAny =>
      var (l1, isModule) := TrySZL(l, SZL_MODULE_ID);
      if isModule then (l1, Some(ConfirmSZL)) else
      var (l2, cpu) := TrySZL(l1, SZL_CPU_STATE);
      if cpu then (l2, Some(ConfirmCPUState)) else
      var (l3, protection) := TrySZL(l2, SZL_PROTECTION_INFO);
      (l3, if protection then Some(ConfirmAny) else None)
    case _ => (l, None)
  }

  /** The SZL a confirmation names. */
  function Named(k: Kind): u16 {
    if k == ConfirmSZL then SZL_MODULE_ID else if k == ConfirmCPUState then SZL_CPU_STATE else SZL_PROTECTION_INFO
  }

  /** A reply taken since l0 confirms; the last frame sent asks for this SZL, and the reply answers that frame exactly when none is unread. */
  ghost predicate BackedBy(l0: Link, l: Link, szlId: u16)
    requires l0.Valid() && l.Valid()
  {
    && |l0.sent| < l.taken && l0.sent <= l.sent
    && Confirms(l.ReplyAt(l.taken - 1))
    && l.sent[|l.sent| - 1] == DT(SZLRequest(FOLLOW_UP_REF, szlId))
    && (l.sent[l.taken - 1] == DT(SZLRequest(FOLLOW_UP_REF, szlId)) <==> l.Lag() == 0)
  }

  /**
   Whatever the link did, a confirmation is backed by a reply that confirms, to one of this follow-up's own
   queries, and the last query sent is the one the confirmation names. All queries carry the same reference,
   so the two are the same query if and only if no reply was left unread on the way.
   */
  lemma ConfirmedByIsRightExactly(l: Link, strategy: Kind)
    requires l.Valid() && l.Lag() == 0
    ensures var (l', k) := RunFollowUp(l, strategy);
            k.Some? ==> BackedBy(l, l', Named(k.value)) && (strategy != ConfirmAny || k == Some(ConfirmSZL) ==> l'.Lag() == 0)
  {
    hide SZLRequest, Confirms, TrySZL, BackedBy;
    QueriesDiffer();
    match strategy
    case ConfirmSZL => LastQueryBacks(l, l, SZL_MODULE_ID);
    case ConfirmCPUState => LastQueryBacks(l, l, SZL_CPU_STATE);
    case ConfirmAny =>
      var l1 := TrySZL(l, SZL_MODULE_ID).0;
      var l2 := TrySZL(l1, SZL_CPU_STATE).0;
      LastQueryBacks(l, l, SZL_MODULE_ID);
      LastQueryBacks(l, l1, SZL_CPU_STATE);
      LastQueryBacks(l, l2, SZL_PROTECTION_INFO);
    case _ =>
  }

  /** l continues l0, and none of the frames sent in between asks for this SZL. */
  ghost predicate NotYetAsked(l0: Link, l: Link, szlId: u16) {
    && l0.Valid() && l.Valid() && l0.sent <= l.sent && l0.taken <= l.taken && l0.Lag() <= l.Lag()
    && forall i :: |l0.sent| <= i < |l.sent| ==> l.sent[i] != DT(SZLRequest(FOLLOW_UP_REF, szlId))
  }

  lemma LastQueryBacks(l0: Link, l: Link, szlId: u16)
    requires NotYetAsked(l0, l, szlId) && l0.Lag() == 0
    ensures var (l', ok) := TrySZL(l, szlId);
            && (ok ==> BackedBy(l0, l', szlId) && l'.Lag() == l.Lag())
            && forall other: u16 :: NotYetAsked(l0, l, other) && SZLRequest(FOLLOW_UP_REF, other) != SZLRequest(FOLLOW_UP_REF, szlId)
                                    ==> NotYetAsked(l0, l', other)
  {
    hide SZLRequest, Confirms;
  }

  lemma QueriesDiffer()
    ensures SZLRequest(FOLLOW_UP_REF, SZL_MODULE_ID) != SZLRequest(FOLLOW_UP_REF, SZL_CPU_STATE)
    ensures SZLRequest(FOLLOW_UP_REF, SZL_MODULE_ID) != SZLRequest(FOLLOW_UP_REF, SZL_PROTECTION_INFO)
    ensures SZLRequest(FOLLOW_UP_REF, SZL_CPU_STATE) != SZLRequest(FOLLOW_UP_REF, SZL_PROTECTION_INFO)
  {
    SZLIdAt(SZL_MODULE_ID);
    SZLIdAt(SZL_CPU_STATE);
    SZLIdAt(SZL_PROTECTION_INFO);
  }

  lemma SZLIdAt(szlId: u16)
    ensures |SZLRequest(FOLLOW_UP_REF, szlId)| == 26 && GetU16(SZLRequest(FOLLOW_UP_REF, szlId), 22) == szlId
  {
    U16RoundTrip(szlId);
    var f := SZLRequest(FOLLOW_UP_REF, szlId);
    assert f[22] == PutU16(szlId)[0] && f[23] == PutU16(szlId)[1];
  }

  // ---------------------------------------------------------------- one candidate, stage by stage

  const SETUP_OPTIONS := H.Options(0, 0, 0, 0, 0, false, false, false, 0, 480, 1, 1)

  /** isProbeTimeout: an expired deadline or a network timeout, anywhere in the error. */
  predicate IsProbeTimeout(e: H.ConnectError) {
    e == H.ContextDone(DeadlineExceeded) || e == H.SendFailed(IoFailed(Cancelled(DeadlineExceeded))) || e == H.SendFailed(IoFailed(NetTimeout))
  }

  function Blank(rack: int, slot: int): Report {
    Report(Candidate(rack, slot, NoStatus, 0), NoStage, 0, 0, Unset, NoConfidence)
  }

  function Reached(r: Report, stage: Stage, status: ProbeStatus): Report {
    r.(stage := stage, c := r.c.(status := status))
  }

  function SetupFailure(e: H.ConnectError): ProbeStatus {
    if IsProbeTimeout(e) then TimedOut
    else if e.S7Refused? || e.ShortSetup? then Rejected
    else COTPOnly
  }

  /** The remote TSAP: the caller's, or the one of the rack and slot. */
  function RemoteTSAP(req: Request, rack: int, slot: int): Result<u16, RangeError> {
    if req.remoteTSAP.Some? then Ok(req.remoteTSAP.value) else BuildTSAP(3, rack, slot)
  }

  function LocalTSAP(req: Request): u16 {
    req.localTSAP.GetOr(BuildTSAP(1, 0, 0).value)
  }

  function Probed(dial: H.DialOutcome, req: Request, ctx: nat -> Option<CtxError>, rack: int, slot: int): Report {
    var r0 := Blank(rack, slot);
    match dial
    case Refused(timedOut) => Reached(r0, TCP, if timedOut then TimedOut else Unreachable)
    case Accepted(env) =>
      match RemoteTSAP(req, rack, slot)
      case Err(_) => Reached(r0, NoStage, Rejected)
      case Ok(remote) =>
        var r := r0.(local := LocalTSAP(req), remote := remote);
        var (l1, failed) := H.COTPConnect(Fresh(env), ctx(0), LocalTSAP(req), remote);
        if failed.Some? then Reached(r, COTP, if IsProbeTimeout(failed.value) then TimedOut else TCPOnly) else
        var (l2, setup) := H.S7Setup(l1, ctx(1), SETUP_REF, SETUP_OPTIONS);
        if setup.Err? then Reached(r, SetupStage, SetupFailure(setup.error)) else
        var r2 := r.(c := r.c.(pduSize := setup.value.pduSize));
        if !req.strict then Reached(r2, SetupStage, SetupOnly).(confidence := Low) else
        match RunFollowUp(l2, req.confirm).1
        case Some(k) => Reached(r2, Query, ValidQuery).(confirmedBy := k, confidence := High)
        case None => Reached(r2, Query, ValidConnect).(confidence := Low)
  }

  method ProbeOne(dial: H.DialOutcome, req: Request, ctx: nat -> Option<CtxError>, rack: int, slot: int) returns (r: Report)
    ensures r == Probed(dial, req, ctx, rack, slot)
  {
    hide H.COTPConnect, H.S7Setup, RunFollowUp, IsProbeTimeout;
    r := Blank(rack, slot);
    if !dial.Accepted? {
      r := r.(stage := TCP);
      if dial.timedOut {
        r := r.(c := r.c.(status := TimedOut));
      } else {
        r := r.(c := r.c.(status := Unreachable));
      }
      return;
    }
    var local, remote;
    if req.localTSAP.Some? {
      local := req.localTSAP.value;
    } else {
      local := BuildTSAP(1, 0, 0).value;
    }
    if req.remoteTSAP.Some? {
      remote := req.remoteTSAP.value;
    } else {
      var built := BuildTSAP(3, rack, slot);
      if built.Err? {
        r := r.(c := r.c.(status := Rejected));
        return;
      }
      remote := built.value;
    }
    r := r.(local := local, remote := remote);
    var (l1, failed) := H.COTPConnect(Fresh(dial.env), ctx(0), local, remote);
    if failed.Some? {
      r := r.(stage := COTP);
      if IsProbeTimeout(failed.value) {
        r := r.(c := r.c.(status := TimedOut));
      } else {
        r := r.(c := r.c.(status := TCPOnly));
      }
      return;
    }
    var (l2, setup) := H.S7Setup(l1, ctx(1), SETUP_REF, SETUP_OPTIONS);
    if setup.Err? {
      r := r.(stage := SetupStage);
      if IsProbeTimeout(setup.error) {
        r := r.(c := r.c.(status := TimedOut));
      } else if setup.error.S7Refused? || setup.error.ShortSetup? {
        r := r.(c := r.c.(status := Rejected));
      } else {
        r := r.(c := r.c.(status := COTPOnly));
      }
      return;
    }
    r := r.(c := r.c.(pduSize := setup.value.pduSize));
    if !req.strict {
      r := r.(stage := SetupStage, c := r.c.(status := SetupOnly), confidence := Low);
      return;
    }
    r := r.(stage := Query);
    var (l3, kind) := RunFollowUp(l2, req.confirm);
    if kind.Some? {
      r := r.(c := r.c.(status := ValidQuery), confirmedBy := kind.value, confidence := High);
    } else {
      r := r.(c := r.c.(status := ValidConnect), confidence := Low);
    }
  }

  /** The connect options that ask for the same session as a probe does: with an override, both TSAPs are explicit. */
  function ConnectOptions(req: Request, rack: int, slot: int): H.Options {
    if req.localTSAP.None? && req.remoteTSAP.None? then SETUP_OPTIONS
    else
      SETUP_OPTIONS.(useExplicit := true, localTSAP := LocalTSAP(req),
                     remoteTSAP := match RemoteTSAP(req, rack, slot) case Ok(tsap) => tsap case Err(_) => 0)
  }

  /**
   A pair counts as accepted exactly when its TSAP can be built and connecting with it, to the same device over the same
   network, would have succeeded, and then with the same PDU size and TSAPs; a strict probe adds the follow-up on that
   very session.
   */
  lemma ProbeAgreesWithConnect(dial: H.DialOutcome, req: Request, ctx: nat -> Option<CtxError>, rack: int, slot: int)
    ensures var r := Probed(dial, req, ctx, rack, slot);
            var session := H.Attempt(ConnectOptions(req, rack, slot), dial, ctx, 0, rack, slot).1;
            var accepted := session.Ok? && RemoteTSAP(req, rack, slot).Ok?;
            && (r.c.rack, r.c.slot) == (rack, slot)
            && (SetupDone(r.c.status) <==> accepted)
            && (accepted ==> r.c.pduSize == session.value.setup.pduSize
                             && (r.local, r.remote) == (session.value.localTSAP, session.value.remoteTSAP))
            && (CountsAsValid(req.strict, r.c) <==> accepted && (req.strict ==> RunFollowUp(session.value.link, req.confirm).1.Some?))
            && (r.c.status == ValidQuery ==> RunFollowUp(session.value.link, req.confirm).1 == Some(r.confirmedBy))
  {
    hide RunFollowUp, IsProbeTimeout;
    var o := ConnectOptions(req, rack, slot);
    if dial.Accepted? && RemoteTSAP(req, rack, slot).Ok? {
      var remote := RemoteTSAP(req, rack, slot).value;
      assert H.TSAPs(o, rack, slot) == Ok((LocalTSAP(req), remote));
      var (l1, failed) := H.COTPConnect(Fresh(dial.env), ctx(0), LocalTSAP(req), remote);
      assert H.S7Setup(l1, ctx(1), SETUP_REF, SETUP_OPTIONS) == H.S7Setup(l1, ctx(1), 1, o);
    }
  }

  // ---------------------------------------------------------------- what `rejected` stands for

  /** The reply a probe takes for the answer to its setup request, when it gets that far. */
  function SetupReply(env: Env, req: Request, ctx: nat -> Option<CtxError>, rack: int, slot: int): Option<Reply> {
    match RemoteTSAP(req, rack, slot)
    case Err(_) => None
    case Ok(remote) =>
      var (l1, failed) := H.COTPConnect(Fresh(env), ctx(0), LocalTSAP(req), remote);
      if failed.Some? || ctx(1).Some? then None else
      match Transfer(l1, DT(H.SetupRequest(SETUP_REF, 1, 1, 480))).1
      case Err(_) => None
      case Ok(reply) => Some(reply)
  }

  /** An answer to the setup request: its header's error fields, and what follows the header. */
  predicate AnswersSetup(reply: Reply) {
    && reply.Frame? && reply.tpdu.DT? && Parsed(reply.tpdu.userData).Ok?
    && Parsed(reply.tpdu.userData).value.0.pduRef == SETUP_REF
  }

  predicate RefusesSetup(reply: Reply) {
    && AnswersSetup(reply)
    && var h := Parsed(reply.tpdu.userData).value.0; h.errorClass != 0 || h.errorCode != 0
  }

  predicate TooShortForSetup(reply: Reply) {
    && AnswersSetup(reply) && !RefusesSetup(reply)
    && var rest := Parsed(reply.tpdu.userData).value.1; |rest| < 8 && (rest == [] || rest[0] == H.FUNC_SETUP_COMM)
  }

  /**
   A pair is reported as rejected if and only if its TSAP cannot be built, the device refuses the setup, or its setup
   reply is too short; so the report is an explicit refusal by the device exactly outside the first and the last case.
   */
  lemma RejectedExactly(dial: H.DialOutcome, req: Request, ctx: nat -> Option<CtxError>, rack: int, slot: int)
    ensures Probed(dial, req, ctx, rack, slot).c.status == Rejected
            <==> dial.Accepted? && (RemoteTSAP(req, rack, slot).Err?
                                     || var reply := SetupReply(dial.env, req, ctx, rack, slot);
                                        reply.Some? && (RefusesSetup(reply.value) || TooShortForSetup(reply.value)))
    ensures Probed(dial, req, ctx, rack, slot).c.status == Rejected ==>
              var reply := SetupReply(dial.env, req, ctx, rack, slot);
              (reply.Some? && RefusesSetup(reply.value))
              <==> RemoteTSAP(req, rack, slot).Ok? && reply.Some? && !TooShortForSetup(reply.value)
  {
    hide RunFollowUp, H.SetupRequest, Parsed;
  }

  const TERSE := Env(_ => Delivered, frames => if |frames| == 1 then Frame(CC) else Frame(DT(AckBytes(SETUP_REF, 0, 0, [0xF0], []))))

  /** A device that accepts the connection and answers the setup, without any error, with one byte: reported as rejected. */
  lemma TerseDeviceIsReportedAsRejected(req: Request, rack: int, slot: int)
    requires RemoteTSAP(req, rack, slot).Ok?
    ensures Probed(H.Accepted(TERSE), req, NEVER, rack, slot).c.status == Rejected
    ensures var reply := SetupReply(TERSE, req, NEVER, rack, slot); reply.Some? && !RefusesSetup(reply.value)
  {
    hide AckBytes, RunFollowUp;
    SetupFits();
    AckRoundTrip(SETUP_REF, 0, 0, [0xF0], []);
    TerseFits();
    var cr, setup := CR(LocalTSAP(req), RemoteTSAP(req, rack, slot).value), DT(H.SetupRequest(SETUP_REF, 1, 1, 480));
    assert [] + [cr] == [cr] && [cr][..1] == [cr] && ([cr] + [setup])[..2] == [cr, setup];
  }

  lemma TerseFits()
    ensures |AckBytes(SETUP_REF, 0, 0, [0xF0], [])| <= MAX_USER_DATA
  {
  }

  // ---------------------------------------------------------------- a device that confirms

  const SZL_ANSWER: seq<byte> := [0xFF, 0x09, 0x00, 0x04, 0x00, 0x11, 0x00, 0x00]
  const SETUP_ANSWER: seq<byte> := [0xF0, 0x00, 0x00, 0x01, 0x00, 0x01, 0x01, 0xE0]

  function Good(): Reply {
    Frame(DT(AckBytes(FOLLOW_UP_REF, 0, 0, [], SZL_ANSWER)))
  }

  lemma GoodConfirms()
    ensures Confirms(Good())
  {
    AckRoundTrip(FOLLOW_UP_REF, 0, 0, [], SZL_ANSWER);
  }

  /** Answers the connection request and the setup, and any query after them with an SZL. */
  function Willing(frames: seq<Tpdu>): Reply {
    if |frames| == 1 then Frame(CC)
    else if |frames| == 2 then Frame(DT(AckBytes(SETUP_REF, 0, 0, SETUP_ANSWER, [])))
    else Good()
  }

  const WILLING := Env(_ => Delivered, Willing)

  /** applyProbeDefaults' choice of the follow-up: of all kinds only "none" is replaced. */
  function Defaulted(req: Request): Request {
    if req.strict && req.confirm == ConfirmNone then req.(confirm := ConfirmAny) else req
  }

  /** With the first two steps delivered and answered that way, a probe reaches its follow-up with nothing unread. */
  lemma ReachesFollowUp(env: Env, req: Request, rack: int, slot: int) returns (l: Link)
    requires RemoteTSAP(req, rack, slot).Ok? && env.io(0) == Delivered && env.io(1) == Delivered
    requires forall frames: seq<Tpdu> :: |frames| == 1 || |frames| == 2 ==> env.serve(frames) == Willing(frames)
    ensures l.env == env && l.clock == 2 && |l.sent| == 2 && l.taken == 2
    ensures req.strict ==>
              var r, k := Probed(H.Accepted(env), req, NEVER, rack, slot), RunFollowUp(l, req.confirm).1;
              && (r.c.status == ValidQuery <==> k.Some?)
              && (k.Some? ==> r.confirmedBy == k.value)
  {
    hide AckBytes, H.SetupRequest, RunFollowUp;
    WillingSetup();
    SetupFits();
    var remote := RemoteTSAP(req, rack, slot).value;
    var cr, setup := CR(LocalTSAP(req), remote), DT(H.SetupRequest(SETUP_REF, 1, 1, 480));
    assert [] + [cr] == [cr] && [cr][..1] == [cr] && ([cr] + [setup])[..2] == [cr, setup];
    l := H.S7Setup(H.COTPConnect(Fresh(env), None, LocalTSAP(req), remote).0, None, SETUP_REF, SETUP_OPTIONS).0;
    assert l.sent == [cr, setup];
  }

  lemma WillingConfirms(req: Request, rack: int, slot: int)
    requires req.strict && RemoteTSAP(req, rack, slot).Ok? && req.confirm in {ConfirmSZL, ConfirmCPUState, ConfirmAny}
    ensures Probed(H.Accepted(WILLING), req, NEVER, rack, slot).c.status == ValidQuery
  {
    hide SZLRequest, Confirms, AckBytes, Probed;
    GoodConfirms();
    var l := ReachesFollowUp(WILLING, req, rack, slot);
    QueryFits(SZL_MODULE_ID);
    QueryFits(SZL_CPU_STATE);
    assert forall q :: (l.sent + [q])[..3] == l.sent + [q];
  }

  lemma SetupFits()
    ensures |H.SetupRequest(SETUP_REF, 1, 1, 480)| <= MAX_USER_DATA
  {
  }

  lemma QueryFits(szlId: u16)
    ensures |SZLRequest(FOLLOW_UP_REF, szlId)| <= MAX_USER_DATA
  {
  }

  lemma WillingSetup()
    ensures H.ReadSetup(Frame(DT(AckBytes(SETUP_REF, 0, 0, SETUP_ANSWER, []))), SETUP_REF).Ok?
  {
    AckRoundTrip(SETUP_REF, 0, 0, SETUP_ANSWER, []);
  }

  /**
   A strict probe can confirm a pair, on some device, if and only if its TSAP can be built and Confirm is "none" or one
   of the three kinds: leaving Confirm unset is not the same as asking for any, it never confirms anything.
   */
  lemma StrictConfirmsExactly(req: Request, rack: int, slot: int)
    requires req.strict
    ensures (exists dial, ctx: nat -> Option<CtxError> :: Probed(dial, Defaulted(req), ctx, rack, slot).c.status == ValidQuery)
            <==> RemoteTSAP(req, rack, slot).Ok? && req.confirm !in {Unset, OtherKind}
  {
    if RemoteTSAP(req, rack, slot).Ok? && req.confirm !in {Unset, OtherKind} {
      WillingConfirms(Defaulted(req), rack, slot);
    }
  }

  /** The answer to the first query comes too late; the second query would be refused. */
  const SLOW := Env(n => if n == 2 then ReceiveFails(NetTimeout) else Delivered,
                    (frames: seq<Tpdu>) => if |frames| <= 3 then Willing(frames) else Undecodable)

  /** One timed-out first query is enough: the device answers only the module query well, and the CPU state gets the credit. */
  lemma ConfirmationCanBeCreditedWrongly(req: Request, rack: int, slot: int)
    requires req.strict && req.confirm == ConfirmAny && RemoteTSAP(req, rack, slot).Ok?
    ensures var r := Probed(H.Accepted(SLOW), req, NEVER, rack, slot);
            r.c.status == ValidQuery && r.confirmedBy == ConfirmCPUState
    ensures forall frames: seq<Tpdu> ::
              |frames| > 3 && frames[|frames| - 1] == DT(SZLRequest(FOLLOW_UP_REF, SZL_CPU_STATE)) ==> !Confirms(SLOW.serve(frames))
  {
    hide SZLRequest, Confirms, Probed, AckBytes;
    var l := ReachesFollowUp(SLOW, req, rack, slot);
    GoodConfirms();
    NothingConfirms();
    QueryFits(SZL_MODULE_ID);
    QueryFits(SZL_CPU_STATE);
    var q1, q2 := DT(SZLRequest(FOLLOW_UP_REF, SZL_MODULE_ID)), DT(SZLRequest(FOLLOW_UP_REF, SZL_CPU_STATE));
    assert (l.sent + [q1] + [q2])[..3] == l.sent + [q1];
  }

  lemma NothingConfirms()
    ensures !Confirms(Undecodable)
  {
  }
}
