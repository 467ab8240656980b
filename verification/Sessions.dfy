/**
 What connecting and closing do to the operations (client/client.go:160-200): a session is installed whole, and as long
 as it is current every goroutine's operations work over its connection, with the PDU size it negotiated.
 */
module Sessions {
  import opened Bytes
  import opened Link
  import opened Exchange
  import opened Operations
  import opened Serial
  import H = Handshake
  import UR = UnreadReplies

  /** The connect a session comes from, as an operation. */
  function ConnectOf(attempt: Result<H.Session, H.ConnectError>): Op {
    match attempt
    case Err(_) => Connecting(None)
    case Ok(session) => Connecting(Some((session.link, session.setup.pduSize)))
  }

  /** Connecting installs the session of its attempt, connection and PDU size; a failed one changes nothing; closing leaves neither. */
  lemma ConnectInstallsTheSession(s: State, o: H.Options, dial: H.DialOutcome, ctx: nat -> Option<CtxError>, checks: nat, rack: int, slot: int)
    requires s.Valid()
    ensures var attempt := H.Attempt(o, dial, ctx, checks, rack, slot).1;
            && ValidOp(ConnectOf(attempt))
            && Atomic(s, ConnectOf(attempt))
               == match attempt
                  case Err(_) => (s, DidConnect(false))
                  case Ok(session) => (session.Opened(s.issued, s.ctx, s.checks), DidConnect(true))
    ensures Atomic(s, Closing) == (State(None, 0, s.issued, s.ctx, s.checks), DidClose)
  {
    hide H.Attempt;
  }

  // ---------------------------------------------------------------- over runs

  /** It works over a connection to this device that has sent at least these frames, with this PDU size. */
  ghost predicate Uses(s: State, link: Link, pduSize: nat) {
    s.Valid() && s.link.Some? && s.link.value.env == link.env && link.sent <= s.link.value.sent && s.pduSize == pduSize
  }

  ghost predicate UsesInside(at: Place, link: Link, pduSize: nat) {
    at.Inside? ==> Uses(at.before, link, pduSize)
  }

  ghost predicate UsedBy(e: Entry, session: nat, link: Link, pduSize: nat) {
    e.stay.Some? && e.stay.value.session == session && Transfers(e.op) ==> Uses(e.stay.value.before, link, pduSize)
  }

  /** As long as connection number `session` is current it is in use so, and so it was for every transfer logged since. */
  ghost predicate InUse(y: System, session: nat, link: Link, pduSize: nat, from: nat) {
    && session <= y.session
    && (y.session == session ==> Uses(y.shared, link, pduSize) && forall t :: 0 <= t < |y.threads| ==> UsesInside(y.threads[t].at, link, pduSize))
    && forall i :: from <= i < |y.log| ==> UsedBy(y.log[i], session, link, pduSize)
  }

  lemma InUseStep(y: System, step: Step, session: nat, link: Link, pduSize: nat, from: nat)
    requires WellFormed(y) && Enabled(y, step) && InUse(y, session, link, pduSize, from)
    ensures InUse(Apply(y, step), session, link, pduSize, from)
  {
    hide Advance, Refusal;
    var th, y' := y.threads[step.t], Apply(y, step);
    assert ThreadOk(th);
    if step.Go? && !Replaces(th.at.phase) {
      AdvanceGrows(y.shared, th.at.phase);
    }
    if y'.session == session {
      forall t | 0 <= t < |y'.threads| ensures UsesInside(y'.threads[t].at, link, pduSize) {
        assert UsesInside(y.threads[t].at, link, pduSize);
      }
    }
    forall i | from <= i < |y'.log| ensures UsedBy(y'.log[i], session, link, pduSize) {
      if i < |y.log| {
        assert UsedBy(y.log[i], session, link, pduSize);
      } else if step.Unlock? && y.session == session {
        assert UsesInside(th.at, link, pduSize);
      }
    }
  }

  lemma {:induction false} InUseLasts(y: System, steps: seq<Step>, y': System, session: nat, link: Link, pduSize: nat, from: nat)
    requires Run(y, steps, y') && InUse(y, session, link, pduSize, from)
    ensures InUse(y', session, link, pduSize, from)
    decreases |steps|
  {
    hide InUse, Apply, Enabled;
    if steps != [] {
      InUseStep(y, steps[0], session, link, pduSize, from);
      InUseLasts(Apply(y, steps[0]), steps[1..], y', session, link, pduSize, from);
    }
  }

  /** When a connect has just returned with a session, that session is what the client has. */
  lemma JustConnected(y: System, s: State, programs: seq<seq<Op>>, holder: Option<nat>, link: Link, pduSize: u16)
    requires Inv(y, s, programs, holder) && !y.locked && y.log != [] && y.log[|y.log| - 1].op == Connecting(Some((link, pduSize)))
    ensures Uses(y.shared, link, pduSize)
  {
    hide ShareOk, StayOk;
    assert holder == None;
  }

  /**
   Whatever goroutines follow a connect, in any interleaving: every read, write and upload logged while its session is
   current has worked over that connection, with the PDU size its handshake negotiated, and came to what it comes to on its own.
   */
  lemma TransfersUseTheSession(s: State, programs: seq<seq<Op>>, early: seq<Step>, y0: System, steps: seq<Step>, y: System,
                               session: H.Session, i: nat)
    requires s.Valid() && Programs(programs) && Run(Start(s, programs), early, y0) && !y0.locked && Run(y0, steps, y)
    requires y0.log != [] && y0.log[|y0.log| - 1].op == ConnectOf(Ok(session))
    requires |y0.log| <= i < |y.log| && y.log[i].stay.Some? && y.log[i].stay.value.session == y0.session && Transfers(y.log[i].op)
    ensures Uses(y.log[i].stay.value.before, session.link, session.setup.pduSize)
    ensures ValidOp(y.log[i].op) && Atomic(y.log[i].stay.value.before, y.log[i].op) == (y.log[i].stay.value.after, y.log[i].out)
  {
    StartInv(s, programs);
    var holder0 := RunKeeps(Start(s, programs), early, y0, s, programs, None);
    UR.NobodyInside(y0, s, programs, holder0);
    JustConnected(y0, s, programs, holder0, session.link, session.setup.pduSize);
    var holder := RunKeeps(y0, steps, y, s, programs, holder0);
    assert InUse(y0, y0.session, session.link, session.setup.pduSize, |y0.log|);
    InUseLasts(y0, steps, y, y0.session, session.link, session.setup.pduSize, |y0.log|);
    UR.EntryIsAtomic(y, s, programs, holder, i);
    hide Run, Inv, Atomic;
    assert UsedBy(y.log[i], y0.session, session.link, session.setup.pduSize);
  }
}
