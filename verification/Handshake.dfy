/** client/handshake.go and the connection attempts of client/client.go, as functions of what the network does. */
module Handshake {
  import opened Bytes
  import opened S7
  import opened Link
  import opened Tsap
  import X = Exchange

  const FUNC_SETUP_COMM: byte := 0xF0

  datatype Options = Options(
    port: int, rack: int, slot: int, localTSAP: u16, remoteTSAP: u16,
    useExplicit: bool, autoRackSlot: bool, bruteRackSlot: bool,
    timeout: int, maxPDU: int, maxAmqCalling: int, maxAmqCalled: int)

  datatype ConnectError =
    | InvalidOptions
    | ContextDone(ctx: CtxError)
    | DialFailed(timedOut: bool)
    | BadRackSlot(why: RangeError)
    | SendFailed(error: SendError)
    | DecodeCOTP
    | UnexpectedTPDU
    | BadHeader(header: HeaderError)
    | RefMismatch(got: u16)
    | S7Refused(errorClass: byte, errorCode: byte)
    | WrongFunction
    | ShortSetup
    | NoPairWorked

  datatype Setup = Setup(maxAmqCalling: u16, maxAmqCalled: u16, pduSize: u16)

  /** What one dial of the device's address comes to. */
  datatype DialOutcome = Refused(timedOut: bool) | Accepted(env: Env)

  /** A negotiated session: the connection and what the client remembers about it. */
  datatype Session = Session(
    link: Link, rack: int, slot: int, localTSAP: u16, remoteTSAP: u16, setup: Setup)
  {
    /** What the client's operations start from once this session is installed. */
    function Opened(issued: nat, ctx: nat -> Option<CtxError>, checks: nat): X.State {
      X.State(Some(link), setup.pduSize, issued, ctx, checks)
    }
  }

  function SetupRequest(pduRef: u16, maxAmqCalling: int, maxAmqCalled: int, pduSize: int): seq<byte> {
    var param := [FUNC_SETUP_COMM, 0x00] + PutU16(maxAmqCalling) + PutU16(maxAmqCalled) + PutU16(pduSize);
    HeaderBytes(ROSCTR_JOB, pduRef, |param|, 0) + param
  }

  function COTPConnect(l: Link, done: Option<CtxError>, local: u16, remote: u16): (r: (Link, Option<ConnectError>))
    requires l.Valid()
    ensures r.0.Valid() && r.0.env == l.env
    ensures r.1.None? ==> r.0.Lag() == l.Lag()
  {
    if done.Some? then (l, Some(ContextDone(done.value))) else
    var (l', got) := Transfer(l, CR(local, remote));
    match got
    case Err(e) => (l', Some(SendFailed(e)))
    case Ok(reply) =>
      (l', if reply.Undecodable? then Some(DecodeCOTP) else if !reply.tpdu.CC? then Some(UnexpectedTPDU) else None)
  }

  function ReadSetup(reply: Reply, pduRef: u16): Result<Setup, ConnectError> {
    if reply.Undecodable? then Err(DecodeCOTP)
    else if !reply.tpdu.DT? then Err(UnexpectedTPDU)
    else
      match Parsed(reply.tpdu.userData)
      case Err(e) => Err(BadHeader(e))
      case Ok((h, rest)) =>
        if h.pduRef != pduRef then Err(RefMismatch(h.pduRef))
        else if h.errorClass != 0 || h.errorCode != 0 then Err(S7Refused(h.errorClass, h.errorCode))
        else if |rest| > 0 && rest[0] != FUNC_SETUP_COMM then Err(WrongFunction)
        else if |rest| < 8 then Err(ShortSetup)
        else Ok(Setup(GetU16(rest, 2), GetU16(rest, 4), GetU16(rest, 6)))
  }

  function S7Setup(l: Link, done: Option<CtxError>, pduRef: u16, o: Options): (r: (Link, Result<Setup, ConnectError>))
    requires l.Valid()
    ensures r.0.Valid() && r.0.env == l.env
    ensures r.1.Ok? ==> r.0.Lag() == l.Lag()
  {
    if done.Some? then (l, Err(ContextDone(done.value))) else
    var (l', got) := Transfer(l, DT(SetupRequest(pduRef, o.maxAmqCalling, o.maxAmqCalled, o.maxPDU)));
    match got
    case Err(e) => (l', Err(SendFailed(e)))
    case Ok(reply) => (l', ReadSetup(reply, pduRef))
  }

  function TSAPs(o: Options, rack: int, slot: int): Result<(u16, u16), ConnectError> {
    if o.useExplicit then Ok((o.localTSAP, o.remoteTSAP))
    else
      match BuildTSAP(1, 0, 0)
      case Err(e) => Err(BadRackSlot(e))
      case Ok(local) =>
        match BuildTSAP(3, rack, slot)
        case Err(e) => Err(BadRackSlot(e))
        case Ok(remote) => Ok((local, remote))
  }

  /** One connection attempt; it makes up to two context checks starting with number `checks`. */
  function Attempt(o: Options, dial: DialOutcome, ctx: nat -> Option<CtxError>, checks: nat, rack: int, slot: int)
    : (r: (nat, Result<Session, ConnectError>))
    ensures r.1.Ok? ==> r.1.value.link.Valid() && r.1.value.link.Lag() == 0
  {
    match dial
    case Refused(timedOut) => (checks, Err(DialFailed(timedOut)))
    case Accepted(env) =>
      match TSAPs(o, rack, slot)
      case Err(e) => (checks, Err(e))
      case Ok((local, remote)) =>
        var (l1, failed) := COTPConnect(Fresh(env), ctx(checks), local, remote);
        if failed.Some? then (checks + 1, Err(failed.value)) else
        var (l2, setup) := S7Setup(l1, ctx(checks + 1), 1, o);
        match setup
        case Err(e) => (checks + 2, Err(e))
        case Ok(s) => (checks + 2, Ok(Session(l2, rack, slot, local, remote, s)))
  }

  lemma RefusedDial(o: Options, timedOut: bool, ctx: nat -> Option<CtxError>, checks: nat, rack: int, slot: int)
    ensures Attempt(o, Refused(timedOut), ctx, checks, rack, slot) == (checks, Err(DialFailed(timedOut)))
  {
  }

  /** The options of a client made for one rack/slot pair, everything else at its default. */
  function PairOptions(rack: int, slot: int): Options {
    Options(102, rack, slot, 0, 0, false, false, false, 5, 480, 1, 1)
  }

  /** Connect of such a client: the pair is validated before the dial. */
  function ConnectPair(dial: DialOutcome, ctx: nat -> Option<CtxError>, rack: int, slot: int): (r: (nat, Result<Session, ConnectError>))
    ensures r.1.Ok? ==> r.1.value.link.Valid() && r.1.value.link.Lag() == 0
  {
    if ValidateRackSlot(rack, slot).Some? then (0, Err(InvalidOptions))
    else Attempt(PairOptions(rack, slot), dial, ctx, 0, rack, slot)
  }

  /** What a dial may come to instead once the context is done: it fails, or the same device is reached over a worse network. */
  ghost predicate MayBecome(dial: DialOutcome, cut: DialOutcome) {
    cut.Accepted? ==> dial.Accepted? && cut.env.serve == dial.env.serve
  }

  /** The pairs auto-connect tries, in order. */
  const COMMON_PAIRS: seq<(int, int)> := [(0, 1), (0, 2), (0, 0), (1, 1), (0, 3)]

  function BrutePairs(): (p: seq<(int, int)>)
    ensures |p| == 24
  {
    seq(24, k => (k / 6, k % 6))
  }

  lemma PairAt(rack: nat, slot: nat)
    requires rack <= 3 && slot <= 5
    ensures BrutePairs()[6 * rack + slot] == (rack, slot)
  {
  }

  /** They are racks 0 to 3 by slots 0 to 5, each pair once, rack by rack. */
  lemma BrutePairsExactly()
    ensures forall rack, slot :: (rack, slot) in BrutePairs() <==> 0 <= rack <= 3 && 0 <= slot <= 5
    ensures forall i, j :: 0 <= i < j < |BrutePairs()| ==>
              BrutePairs()[i].0 < BrutePairs()[j].0
              || (BrutePairs()[i].0 == BrutePairs()[j].0 && BrutePairs()[i].1 < BrutePairs()[j].1)
  {
    var p := BrutePairs();
    forall rack, slot | 0 <= rack <= 3 && 0 <= slot <= 5 ensures (rack, slot) in p {
      PairAt(rack, slot);
    }
  }

  /** The script of dials and context checks, and how much of it has been used. */
  datatype Script = Script(dial: nat -> DialOutcome, ctx: nat -> Option<CtxError>, dials: nat, checks: nat)

  function FirstSuccess(o: Options, sc: Script, pairs: seq<(int, int)>): (r: (Script, Result<Session, ConnectError>))
    ensures r.1.Ok? ==> r.1.value.link.Valid()
    decreases |pairs|
  {
    if pairs == [] then (sc, Err(NoPairWorked)) else
    var done := sc.ctx(sc.checks);
    var sc1 := sc.(checks := sc.checks + 1);
    if done.Some? then (sc1, Err(ContextDone(done.value))) else
    var (checks, r) := Attempt(o, sc.dial(sc.dials), sc.ctx, sc1.checks, pairs[0].0, pairs[0].1);
    var sc2 := sc1.(checks := checks, dials := sc.dials + 1);
    if r.Ok? then (sc2, r) else FirstSuccess(o, sc2, pairs[1..])
  }

  lemma NoPairsLeft(o: Options, sc: Script)
    ensures FirstSuccess(o, sc, []) == (sc, Err(NoPairWorked))
  {
  }

  /** Auto-connect's bookkeeping: checks[i] is the number of the context check made before attempt i. */
  ghost predicate Attempts(o: Options, sc: Script, pairs: seq<(int, int)>, checks: seq<nat>) {
    && 0 < |checks| <= |pairs| + 1 && checks[0] == sc.checks
    && forall i :: 0 <= i < |checks| - 1 ==> FailedAttempt(o, sc, pairs, checks, i)
  }

  /** The context was not done, the attempt was made, and it failed. */
  ghost predicate FailedAttempt(o: Options, sc: Script, pairs: seq<(int, int)>, checks: seq<nat>, i: nat)
    requires i < |pairs| && i + 1 < |checks|
  {
    var (after, r) := AttemptAt(o, sc, pairs, checks[i], i);
    sc.ctx(checks[i]) == None && r.Err? && after == checks[i + 1]
  }

  function AttemptAt(o: Options, sc: Script, pairs: seq<(int, int)>, check: nat, i: nat): (nat, Result<Session, ConnectError>)
    requires i < |pairs|
  {
    Attempt(o, sc.dial(sc.dials + i), sc.ctx, check + 1, pairs[i].0, pairs[i].1)
  }

  lemma AttemptsCons(o: Options, sc: Script, pairs: seq<(int, int)>, sc2: Script, later: seq<nat>)
    requires pairs != [] && sc.ctx(sc.checks) == None
    requires AttemptAt(o, sc, pairs, sc.checks, 0).1.Err?
    requires sc2 == sc.(checks := AttemptAt(o, sc, pairs, sc.checks, 0).0, dials := sc.dials + 1)
    requires Attempts(o, sc2, pairs[1..], later)
    ensures Attempts(o, sc, pairs, [sc.checks] + later)
  {
    hide Attempt;
    var checks := [sc.checks] + later;
    forall i | 0 <= i < |checks| - 1 ensures FailedAttempt(o, sc, pairs, checks, i) {
      if i > 0 {
        assert FailedAttempt(o, sc2, pairs[1..], later, i - 1);
        assert pairs[1..][i - 1] == pairs[i];
      }
    }
  }

  /**
   Auto-connect tries the pairs in order: k attempts fail, and then it returns the session of the first one that
   succeeds, or fails, which it does exactly when no pair is left or the context is done before the next.
   */
  lemma {:induction false} AutoConnectTriesInOrder(o: Options, sc: Script, pairs: seq<(int, int)>) returns (k: nat, checks: seq<nat>)
    ensures Attempts(o, sc, pairs, checks) && |checks| == k + 1
    ensures var r := FirstSuccess(o, sc, pairs).1;
            && (r.Err? <==> k == |pairs| || sc.ctx(checks[k]).Some?)
            && (r.Err? ==> r.error == if k == |pairs| then NoPairWorked else ContextDone(sc.ctx(checks[k]).value))
            && (r.Ok? ==> AttemptAt(o, sc, pairs, checks[k], k).1 == r && FirstSuccess(o, sc, pairs).0.dials == sc.dials + k + 1)
    decreases |pairs|
  {
    hide Attempt;
    k, checks := 0, [sc.checks];
    if pairs != [] && sc.ctx(sc.checks).None? {
      var (after, r) := AttemptAt(o, sc, pairs, sc.checks, 0);
      if r.Err? {
        var sc2 := sc.(checks := after, dials := sc.dials + 1);
        var later;
        k, later := AutoConnectTriesInOrder(o, sc2, pairs[1..]);
        AttemptsCons(o, sc, pairs, sc2, later);
        k, checks := k + 1, [sc.checks] + later;
        if FirstSuccess(o, sc, pairs).1.Ok? {
          assert pairs[1..][k - 1] == pairs[k] && sc2.dials + (k - 1) == sc.dials + k;
        }
      }
    }
  }

  // ---------------------------------------------------------------- what the steps establish

  /** The connection is accepted exactly when the context allows it and the reply to the request is a CC. */
  lemma ConnectsExactly(l: Link, done: Option<CtxError>, local: u16, remote: u16)
    requires l.Valid()
    ensures COTPConnect(l, done, local, remote).1.None? <==> done.None? && Transfer(l, CR(local, remote)).1 == Ok(Frame(CC))
    ensures done.None? ==> COTPConnect(l, done, local, remote).0 == Transfer(l, CR(local, remote)).0
  {
  }

  /** A setup reply as a device sends it. */
  function SetupAnswer(pduRef: u16, setup: Setup): (r: Reply) {
    var param := [FUNC_SETUP_COMM, 0x00] + PutU16(setup.maxAmqCalling) + PutU16(setup.maxAmqCalled) + PutU16(setup.pduSize);
    Frame(DT(AckBytes(pduRef, 0, 0, param, [])))
  }

  /** It is read back: both queue sizes and the PDU size. */
  lemma SetupRoundTrip(pduRef: u16, setup: Setup)
    ensures ReadSetup(SetupAnswer(pduRef, setup), pduRef) == Ok(setup)
  {
    hide PutU16, Parsed, AckBytes;
    var param := [FUNC_SETUP_COMM, 0x00] + PutU16(setup.maxAmqCalling) + PutU16(setup.maxAmqCalled) + PutU16(setup.pduSize);
    AckRoundTrip(pduRef, 0, 0, param, []);
    assert param + [] == param;
    U16RoundTrip(setup.maxAmqCalling);
    U16RoundTrip(setup.maxAmqCalled);
    U16RoundTrip(setup.pduSize);
    assert GetU16(param, 2) == GetU16(PutU16(setup.maxAmqCalling), 0) && GetU16(param, 4) == GetU16(PutU16(setup.maxAmqCalled), 0);
    assert GetU16(param, 6) == GetU16(PutU16(setup.pduSize), 0);
  }

  /** The frames of a handshake. */
  function Hello(o: Options, local: u16, remote: u16): seq<Tpdu> {
    [CR(local, remote), DT(SetupRequest(1, o.maxAmqCalling, o.maxAmqCalled, o.maxPDU))]
  }

  lemma SetupRequestFits(pduRef: u16, o: Options)
    ensures |SetupRequest(pduRef, o.maxAmqCalling, o.maxAmqCalled, o.maxPDU)| == 18
  {
  }

  /** With its two steps delivered and answered, the attempt opens a session. */
  lemma OpensSession(o: Options, env: Env, ctx: nat -> Option<CtxError>, checks: nat, rack: int, slot: int, setup: Setup) returns (s: Session)
    requires TSAPs(o, rack, slot).Ok? && ctx(checks) == None && ctx(checks + 1) == None
    requires env.io(0) == Delivered && env.io(1) == Delivered
    requires var hello := Hello(o, TSAPs(o, rack, slot).value.0, TSAPs(o, rack, slot).value.1);
             env.serve(hello[..1]) == Frame(CC) && ReadSetup(env.serve(hello), 1) == Ok(setup)
    ensures Attempt(o, Accepted(env), ctx, checks, rack, slot) == (checks + 2, Ok(s))
    ensures var (local, remote) := TSAPs(o, rack, slot).value;
            s == Session(Link(env, 2, Hello(o, local, remote), 2), rack, slot, local, remote, setup)
  {
    hide SetupRequest, ReadSetup, TSAPs;
    SetupRequestFits(1, o);
    var (local, remote) := TSAPs(o, rack, slot).value;
    var hello := Hello(o, local, remote);
    assert [] + [hello[0]] == hello[..1] && hello[..1][..1] == hello[..1] && hello[..1] + [hello[1]] == hello && hello[..2] == hello;
    s := Session(Link(env, 2, hello, 2), rack, slot, local, remote, setup);
  }

  /** A device that answers the first two frames of any connection so, and a link that delivers them. */
  ghost predicate Welcomes(env: Env, setup: Setup) {
    && env.io(0) == Delivered && env.io(1) == Delivered
    && forall frames: seq<Tpdu> :: (|frames| == 1 ==> env.serve(frames) == Frame(CC))
                                   && (|frames| == 2 ==> env.serve(frames) == SetupAnswer(1, setup))
  }

  lemma WelcomeOpens(o: Options, env: Env, rack: int, slot: int, setup: Setup) returns (s: Session)
    requires TSAPs(o, rack, slot).Ok? && Welcomes(env, setup)
    ensures Attempt(o, Accepted(env), NEVER, 0, rack, slot) == (2, Ok(s))
    ensures var (local, remote) := TSAPs(o, rack, slot).value;
            s == Session(Link(env, 2, Hello(o, local, remote), 2), rack, slot, local, remote, setup)
  {
    hide TSAPs, SetupAnswer;
    SetupRoundTrip(1, setup);
    s := OpensSession(o, env, NEVER, 0, rack, slot, setup);
  }

  /** A session carries the pair it was asked for and its TSAPs, and its wire shows the two requests, both answered, nothing else. */
  lemma SessionIsNegotiated(o: Options, outcome: DialOutcome, ctx: nat -> Option<CtxError>, checks: nat, rack: int, slot: int)
    ensures var r := Attempt(o, outcome, ctx, checks, rack, slot).1;
            r.Ok? ==>
              && r.value.rack == rack && r.value.slot == slot && TSAPs(o, rack, slot) == Ok((r.value.localTSAP, r.value.remoteTSAP))
              && r.value.link.sent == [CR(r.value.localTSAP, r.value.remoteTSAP),
                                       DT(SetupRequest(1, o.maxAmqCalling, o.maxAmqCalled, o.maxPDU))]
              && r.value.link.taken == 2
              && r.value.link.ReplyAt(0) == Frame(CC) && ReadSetup(r.value.link.ReplyAt(1), 1) == Ok(r.value.setup)
  {
    hide ReadSetup, SetupRequest, TSAPs;
    if outcome.Accepted? && TSAPs(o, rack, slot).Ok? {
      var (local, remote) := TSAPs(o, rack, slot).value;
      var (l1, failed) := COTPConnect(Fresh(outcome.env), ctx(checks), local, remote);
      if failed.None? {
        var (l2, setup) := S7Setup(l1, ctx(checks + 1), 1, o);
        if setup.Ok? {
          RepliesStay(l1, l2, 0);
        }
      }
    }
  }
}
