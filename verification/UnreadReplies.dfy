/**
 A reply left unread, across operations and goroutines: until the connection is replaced, whatever any
 goroutine transfers over it comes to nothing.
 */
module UnreadReplies {
  import opened Bytes
  import opened Link
  import opened Exchange
  import opened Operations
  import opened Serial

  /** The connection of this state is `env`'s, and it owes a reply to a request numbered `base` or later. */
  ghost predicate Owes(s: State, env: Env, base: nat) {
    Tracked(s, base, true) && s.link.value.env == env
  }

  ghost predicate DebtOf(at: Place, env: Env, base: nat) {
    at.Inside? ==> Owes(at.before, env, base)
  }

  ghost predicate DebtAt(e: Entry, session: nat, env: Env, base: nat) {
    e.stay.Some? && e.stay.value.session == session ==> Owes(e.stay.value.before, env, base)
  }

  /** As long as connection number `session` is current it owes, and so it did whenever a goroutine got the mutex since. */
  ghost predicate Debt(y: System, session: nat, env: Env, base: nat, from: nat) {
    && session <= y.session
    && (y.session == session ==>
          Owes(y.shared, env, base) && base <= y.shared.issued + 1 && forall t :: 0 <= t < |y.threads| ==> DebtOf(y.threads[t].at, env, base))
    && forall i :: from <= i < |y.log| ==> DebtAt(y.log[i], session, env, base)
  }

  lemma AdvanceOwes(s: State, p: Phase, env: Env, base: nat)
    requires Owes(s, env, base) && p.Valid() && !p.Left? && !Replaces(p) && base <= s.issued + 1
    ensures Owes(Advance(s, p).0, env, base) && Advance(s, p).0.issued >= s.issued
  {
    AdvanceKeepsTracked(s, p, base, true);
    hide Advance;
  }

  lemma DebtStep(y: System, step: Step, session: nat, env: Env, base: nat, from: nat)
    requires WellFormed(y) && Enabled(y, step) && Debt(y, session, env, base, from)
    ensures Debt(Apply(y, step), session, env, base, from)
  {
    hide Advance, Refusal, Tracked;
    var th, y' := y.threads[step.t], Apply(y, step);
    assert ThreadOk(th);
    if step.Go? && !Replaces(th.at.phase) && y.session == session {
      AdvanceOwes(y.shared, th.at.phase, env, base);
    }
    if y'.session == session {
      forall t | 0 <= t < |y'.threads| ensures DebtOf(y'.threads[t].at, env, base) {
        assert DebtOf(y.threads[t].at, env, base);
      }
    }
    forall i | from <= i < |y'.log| ensures DebtAt(y'.log[i], session, env, base) {
      if i < |y.log| {
        assert DebtAt(y.log[i], session, env, base);
      } else if step.Unlock? && y.session == session {
        assert DebtOf(th.at, env, base);
      }
    }
  }

  lemma {:induction false} DebtLasts(y: System, steps: seq<Step>, y': System, session: nat, env: Env, base: nat, from: nat)
    requires Run(y, steps, y') && Debt(y, session, env, base, from)
    ensures Debt(y', session, env, base, from)
    decreases |steps|
  {
    hide Debt, Apply, Enabled;
    if steps != [] {
      DebtStep(y, steps[0], session, env, base, from);
      DebtLasts(Apply(y, steps[0]), steps[1..], y', session, env, base, from);
    }
  }

  lemma {:induction false} TrackedThroughout(y: System, steps: seq<Step>, y': System)
    requires Run(y, steps, y') && Tracked(y.shared, 0, false)
    ensures Tracked(y'.shared, 0, false)
    decreases |steps|
  {
    hide Tracked, Advance, Refusal;
    if steps != [] {
      var th := y.threads[steps[0].t];
      assert ThreadOk(th);
      if steps[0].Go? {
        if Replaces(th.at.phase) {
          ReplacementIsTracked(y.shared, th.at.phase);
        } else {
          AdvanceKeepsTracked(y.shared, th.at.phase, 0, false);
        }
      }
      TrackedThroughout(Apply(y, steps[0]), steps[1..], y');
    }
  }

  /** In every reachable state of a client whose connection owed nothing at first, the unread replies can be accounted for. */
  lemma UnreadRepliesAreTracked(s: State, programs: seq<seq<Op>>, steps: seq<Step>, y: System)
    requires s.Valid() && (s.link.Some? ==> s.link.value.Lag() == 0) && Run(Start(s, programs), steps, y)
    requires y.shared.Valid() && y.shared.link.Some? && y.shared.link.value.Lag() > 0
    ensures exists base: nat :: base <= y.shared.issued && Tracked(y.shared, base, true)
  {
    if s.link.Some? {
      assert TrackedBy(s, 0, false, []);
    }
    TrackedThroughout(Start(s, programs), steps, y);
    hide Run;
    var stamps :| TrackedBy(y.shared, 0, false, stamps);
    assert TrackedBy(y.shared, stamps[0], true, stamps);
    assert Tracked(y.shared, stamps[0], true);
  }

  /**
   Whatever goroutines follow, in any interleaving: once a reply is unread, every read, write and upload begun on that
   connection inside the window, with a next reference that is not 0, comes to nothing, and the connection never
   catches up.
   */
  lemma NothingSucceedsWhileOwing(s: State, programs: seq<seq<Op>>, early: seq<Step>, y0: System, steps: seq<Step>, y: System,
                                  base: nat, i: nat)
    requires s.Valid() && Programs(programs) && Run(Start(s, programs), early, y0) && !y0.locked && Run(y0, steps, y)
    requires base <= y0.shared.issued && Tracked(y0.shared, base, true) && Echoes(y0.shared.link.value.env.serve)
    ensures y.session == y0.session ==> y.shared.Valid() && y.shared.link.Some? && y.shared.link.value.Lag() > 0
    ensures |y0.log| <= i < |y.log| && y.log[i].stay.Some? && Transfers(y.log[i].op) ==>
              var stay := y.log[i].stay.value;
              stay.session == y0.session && stay.before.issued + 4 - base < 0x1_0000 && NextRef(stay.before) != 0 ==>
                CameToNothing(y.log[i].out)
  {
    var env := y0.shared.link.value.env;
    StartInv(s, programs);
    var holder0 := RunKeeps(Start(s, programs), early, y0, s, programs, None);
    NobodyInside(y0, s, programs, holder0);
    var holder := RunKeeps(y0, steps, y, s, programs, holder0);
    assert Debt(y0, y0.session, env, base, |y0.log|);
    DebtLasts(y0, steps, y, y0.session, env, base, |y0.log|);
    if y.session == y0.session {
      OwedIsUnread(y, y0.session, env, base, |y0.log|);
    }
    if |y0.log| <= i < |y.log| && y.log[i].stay.Some? && Transfers(y.log[i].op) {
      var stay := y.log[i].stay.value;
      if stay.session == y0.session && stay.before.issued + 4 - base < 0x1_0000 && NextRef(stay.before) != 0 {
        EntryIsAtomic(y, s, programs, holder, i);
        assert DebtAt(y.log[i], y0.session, env, base);
        hide Run, Inv, Debt;
        OwingTransferFails(stay.before, y.log[i].op, base);
      }
    }
  }

  lemma NobodyInside(y: System, s: State, programs: seq<seq<Op>>, holder: Option<nat>)
    requires Inv(y, s, programs, holder) && !y.locked
    ensures forall t :: 0 <= t < |y.threads| ==> !y.threads[t].at.Inside?
  {
    hide StayOk, Sequential, After, ThreadOk;
    forall t | 0 <= t < |y.threads| ensures !y.threads[t].at.Inside? {
      assert ShareOk(y, programs, holder, t);
    }
  }

  lemma EntryIsAtomic(y: System, s: State, programs: seq<seq<Op>>, holder: Option<nat>, i: nat)
    requires Inv(y, s, programs, holder) && i < |y.log| && y.log[i].stay.Some?
    ensures var stay := y.log[i].stay.value;
            stay.before.Valid() && ValidOp(y.log[i].op) && Atomic(stay.before, y.log[i].op) == (stay.after, y.log[i].out)
  {
    hide StateOk, ShareOk, Atomic;
    assert StayOk(y, y.log[i]);
  }

  lemma OwedIsUnread(y: System, session: nat, env: Env, base: nat, from: nat)
    requires Debt(y, session, env, base, from) && y.session == session
    ensures y.shared.link.Some? && y.shared.Valid() && y.shared.link.value.Lag() > 0
  {
    var stamps :| TrackedBy(y.shared, base, true, stamps);
  }
}
