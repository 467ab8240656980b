/**
 reqMu at work (client/client.go:92, client/readwrite.go:72, client/blocks.go:144): goroutines that
 run operations on one client, in any interleaving. Every run is the same as running the operations
 one after another in the order in which they returned.
 */
module Serial {
  import opened Bytes
  import opened PduBlocks
  import opened Link
  import opened Exchange
  import opened Operations
  import UP = Upload

  /** A goroutine inside remembers the shared state it found when it got the mutex. */
  datatype Place = Outside | Inside(op: Op, phase: Phase, before: State)
  datatype Thread = Thread(todo: seq<Op>, at: Place)

  /** The shared state at Lock and at Unlock, and which of the client's connections was current then. */
  datatype Stay = Stay(before: State, after: State, session: nat)
  datatype Entry = Entry(thread: nat, op: Op, out: Outcome, stay: Option<Stay>)

  /**
   The mutex is a bit without an owner, as sync.Mutex is; nothing but the code keeps two goroutines
   apart. The connections are numbered as they are replaced.
   */
  datatype System = System(shared: State, session: nat, locked: bool, threads: seq<Thread>, log: seq<Entry>)

  datatype Step = Refuse(t: nat) | Lock(t: nat) | Go(t: nat) | Unlock(t: nat)

  predicate Enabled(y: System, step: Step) {
    && step.t < |y.threads|
    && var th := y.threads[step.t];
    match step
    case Refuse(_) => th.at.Outside? && th.todo != [] && Refusal(th.todo[0]).Some?
    case Lock(_) => th.at.Outside? && th.todo != [] && Refusal(th.todo[0]).None? && !y.locked
    case Go(_) => th.at.Inside? && !th.at.phase.Left?
    case Unlock(_) => th.at.Inside? && th.at.phase.Left?
  }

  ghost predicate WellFormed(y: System) {
    y.shared.Valid() && forall t :: 0 <= t < |y.threads| ==> ThreadOk(y.threads[t])
  }

  ghost predicate ThreadOk(th: Thread) {
    && (forall i :: 0 <= i < |th.todo| ==> ValidOp(th.todo[i]))
    && (th.at.Inside? ==> ValidOp(th.at.op) && Refusal(th.at.op).None? && th.at.phase.Valid() && th.at.before.Valid())
  }

  function Apply(y: System, step: Step): System
    requires WellFormed(y) && Enabled(y, step)
  {
    var t := step.t;
    var th := y.threads[t];
    match step
    case Refuse(_) =>
      y.(threads := y.threads[t := Thread(th.todo[1..], Outside)],
         log := y.log + [Entry(t, th.todo[0], Refusal(th.todo[0]).value, None)])
    case Lock(_) =>
      y.(locked := true, threads := y.threads[t := Thread(th.todo[1..], Inside(th.todo[0], Entered(th.todo[0]), y.shared))])
    case Go(_) =>
      var (s', p') := Advance(y.shared, th.at.phase);
      y.(shared := s', session := y.session + if Replaces(th.at.phase) then 1 else 0,
         threads := y.threads[t := th.(at := Inside(th.at.op, p', th.at.before))])
    case Unlock(_) =>
      y.(locked := false, threads := y.threads[t := th.(at := Outside)],
         log := y.log + [Entry(t, th.at.op, th.at.phase.out, Some(Stay(th.at.before, y.shared, y.session)))])
  }

  // ---------------------------------------------------------------- the sequential run

  ghost predicate ValidLog(log: seq<Entry>) {
    forall i :: 0 <= i < |log| ==> ValidOp(log[i].op)
  }

  /** The state after the logged operations, run one after another. */
  function After(s: State, log: seq<Entry>): (s': State)
    requires s.Valid() && ValidLog(log)
    ensures s'.Valid()
  {
    if log == [] then s else Atomic(After(s, log[..|log| - 1]), log[|log| - 1].op).0
  }

  /** Every logged outcome is the one the sequential run gives. */
  ghost predicate Sequential(s: State, log: seq<Entry>)
    requires s.Valid()
  {
    ValidLog(log) && forall i :: 0 <= i < |log| ==> Atomic(After(s, log[..i]), log[i].op).1 == log[i].out
  }

  lemma LogOneMore(s: State, log: seq<Entry>, e: Entry)
    requires s.Valid() && Sequential(s, log) && ValidOp(e.op) && Atomic(After(s, log), e.op).1 == e.out
    ensures Sequential(s, log + [e]) && After(s, log + [e]) == Atomic(After(s, log), e.op).0
  {
    hide Atomic;
    var more := log + [e];
    assert more[..|log|] == log;
    forall i | 0 <= i < |more| ensures Atomic(After(s, more[..i]), more[i].op).1 == more[i].out {
      if i < |log| {
        assert more[..i] == log[..i];
      }
    }
  }

  /** The operations goroutine t has finished, in its order. */
  function Mine(log: seq<Entry>, t: nat): seq<Op> {
    if log == [] then [] else Mine(log[..|log| - 1], t) + if log[|log| - 1].thread == t then [log[|log| - 1].op] else []
  }

  function Running(th: Thread): seq<Op> {
    if th.at.Inside? then [th.at.op] else []
  }

  // ---------------------------------------------------------------- the invariant

  /** One goroutine's share: what it finished, runs and still has to do is its program, and it is inside only as the holder. */
  ghost predicate ShareOk(y: System, programs: seq<seq<Op>>, holder: Option<nat>, t: nat)
    requires t < |y.threads| == |programs|
  {
    && Mine(y.log, t) + Running(y.threads[t]) + y.threads[t].todo == programs[t]
    && (y.threads[t].at.Inside? <==> holder == Some(t))
  }

  /** The shared state is where the sequential run of the log, and then the holder's operation so far, would have led. */
  ghost predicate StateOk(y: System, s: State, holder: Option<nat>)
    requires WellFormed(y) && s.Valid()
  {
    && (y.locked <==> holder.Some?)
    && Sequential(s, y.log)
    && match holder
       case None => y.shared == After(s, y.log)
       case Some(t) => t < |y.threads| && y.threads[t].at.Inside? && HolderOk(y, s, y.threads[t].at)
  }

  ghost predicate HolderOk(y: System, s: State, at: Place)
    requires y.shared.Valid() && s.Valid() && ValidLog(y.log)
    requires at.Inside? && ValidOp(at.op) && at.phase.Valid() && at.before.Valid()
  {
    && at.before == After(s, y.log)
    && Rest(y.shared, at.phase) == Atomic(at.before, at.op)
    && Planned(at.op, at.phase, at.before.pduSize)
    && (at.phase.Left? || y.shared.pduSize == at.before.pduSize)
    && (at.phase.Entered? ==> y.shared == at.before)
    && Trail(at.before, at.op, at.phase, y.shared)
  }

  /** A logged stay is one whole operation, and on the connection it left its frames are still where they were. */
  ghost predicate StayOk(y: System, e: Entry)
    requires y.shared.Valid()
  {
    e.stay.Some? ==>
      && e.stay.value.before.Valid() && ValidOp(e.op) && Refusal(e.op).None?
      && Atomic(e.stay.value.before, e.op) == (e.stay.value.after, e.out)
      && e.stay.value.session <= y.session
      && (e.stay.value.session == y.session ==> Grows(e.stay.value.after, y.shared))
  }

  ghost predicate Inv(y: System, s: State, programs: seq<seq<Op>>, holder: Option<nat>) {
    && s.Valid() && WellFormed(y) && |y.threads| == |programs|
    && (forall t :: 0 <= t < |programs| ==> ShareOk(y, programs, holder, t))
    && (forall i :: 0 <= i < |y.log| ==> y.log[i].thread < |programs| && StayOk(y, y.log[i]))
    && StateOk(y, s, holder)
  }

  function HolderAfter(holder: Option<nat>, step: Step): Option<nat> {
    match step
    case Lock(t) => Some(t)
    case Unlock(_) => None
    case _ => holder
  }

  lemma RefusalIsAtomic(s: State, op: Op)
    requires s.Valid() && ValidOp(op) && Refusal(op).Some?
    ensures Atomic(s, op) == (s, Refusal(op).value)
  {
  }

  lemma ApplyWellFormed(y: System, step: Step)
    requires WellFormed(y) && Enabled(y, step)
    ensures WellFormed(Apply(y, step))
  {
    hide Advance, Refusal;
    var y' := Apply(y, step);
    assert ThreadOk(y.threads[step.t]);
    forall t | 0 <= t < |y'.threads| ensures ThreadOk(y'.threads[t]) {
      assert ThreadOk(y.threads[t]);
    }
  }

  lemma MineOneMore(log: seq<Entry>, e: Entry, t: nat)
    ensures Mine(log + [e], t) == Mine(log, t) + if e.thread == t then [e.op] else []
  {
    assert (log + [e])[..|log|] == log;
  }

  lemma SharesStep(y: System, s: State, programs: seq<seq<Op>>, holder: Option<nat>, step: Step, t: nat)
    requires Inv(y, s, programs, holder) && Enabled(y, step) && t < |programs|
    ensures ShareOk(Apply(y, step), programs, HolderAfter(holder, step), t)
  {
    hide StateOk, Apply, ShareOk;
    MutexBit(y, s, holder);
    assert ShareOk(y, programs, holder, t) && ShareOk(y, programs, holder, step.t);
    if t == step.t {
      ActorsShare(y, programs, holder, step);
    } else {
      BystandersShare(y, programs, holder, step, t);
    }
  }

  lemma ActorsShare(y: System, programs: seq<seq<Op>>, holder: Option<nat>, step: Step)
    requires WellFormed(y) && Enabled(y, step) && |y.threads| == |programs| && ShareOk(y, programs, holder, step.t)
    ensures |Apply(y, step).threads| == |programs| && ShareOk(Apply(y, step), programs, HolderAfter(holder, step), step.t)
  {
    hide Advance, Refusal, Mine;
    var th, y' := y.threads[step.t], Apply(y, step);
    match step
    case Refuse(t) =>
      MineOneMore(y.log, y'.log[|y.log|], t);
      assert [th.todo[0]] + th.todo[1..] == th.todo;
    case Lock(t) => assert [th.todo[0]] + th.todo[1..] == th.todo;
    case Go(_) =>
    case Unlock(t) => MineOneMore(y.log, y'.log[|y.log|], t);
  }

  lemma BystandersShare(y: System, programs: seq<seq<Op>>, holder: Option<nat>, step: Step, t: nat)
    requires WellFormed(y) && Enabled(y, step) && |y.threads| == |programs| && t < |programs| && t != step.t
    requires ShareOk(y, programs, holder, t) && ShareOk(y, programs, holder, step.t) && (y.locked <==> holder.Some?)
    ensures |Apply(y, step).threads| == |programs| && ShareOk(Apply(y, step), programs, HolderAfter(holder, step), t)
  {
    hide Advance, Refusal, Mine;
    var y' := Apply(y, step);
    if step.Refuse? || step.Unlock? {
      MineOneMore(y.log, y'.log[|y.log|], t);
    }
  }

  lemma MutexBit(y: System, s: State, holder: Option<nat>)
    requires s.Valid() && WellFormed(y)
    ensures StateOk(y, s, holder) ==> (y.locked <==> holder.Some?)
  {
  }

  lemma StateStep(y: System, s: State, programs: seq<seq<Op>>, holder: Option<nat>, step: Step)
    requires Inv(y, s, programs, holder) && Enabled(y, step)
    ensures WellFormed(Apply(y, step)) && StateOk(Apply(y, step), s, HolderAfter(holder, step))
  {
    hide Advance, Atomic, Rest, Planned, Refusal, Mine, After, Trail, Replaces, StayOk;
    ApplyWellFormed(y, step);
    var t := step.t;
    var th := y.threads[t];
    assert ShareOk(y, programs, holder, t);
    assert ThreadOk(th);
    match step
    case Refuse(_) =>
      RefusalIsAtomic(After(s, y.log), th.todo[0]);
      LogOneMore(s, y.log, Entry(t, th.todo[0], Refusal(th.todo[0]).value, None));
    case Lock(_) => EntryIsWhole(y.shared, th.todo[0]);
    case Go(_) => GoKeepsHolder(y, s, t);
    case Unlock(_) =>
      NothingLeft(y.shared, th.at.phase);
      LogOneMore(s, y.log, Entry(t, th.at.op, th.at.phase.out, Some(Stay(th.at.before, y.shared, y.session))));
  }

  lemma EntryIsWhole(s: State, op: Op)
    requires s.Valid() && ValidOp(op) && Refusal(op).None?
    ensures Rest(s, Entered(op)) == Atomic(s, op) && Planned(op, Entered(op), s.pduSize) && Trail(s, op, Entered(op), s)
  {
  }

  lemma NothingLeft(s: State, p: Phase)
    requires s.Valid() && p.Left?
    ensures Rest(s, p) == (s, p.out)
  {
  }

  lemma GoKeepsHolder(y: System, s: State, t: nat)
    requires s.Valid() && WellFormed(y) && StateOk(y, s, Some(t)) && Enabled(y, Go(t))
    ensures WellFormed(Apply(y, Go(t))) && StateOk(Apply(y, Go(t)), s, Some(t))
  {
    hide Atomic, Rest, Refusal, After, Sequential;
    ApplyWellFormed(y, Go(t));
    var th := y.threads[t];
    assert ThreadOk(th);
    AdvanceKeepsRest(y.shared, th.at.phase);
    AdvanceKeepsPlan(y.shared, th.at.op, th.at.phase);
    InstallLeaves(y.shared, th.at.op, th.at.phase);
    AdvanceIsUnderWay(y.shared, th.at.phase);
    AdvanceKeepsTrail(th.at.before, y.shared, th.at.op, th.at.phase);
    hide Advance, Planned, Trail;
  }

  lemma AdvanceIsUnderWay(s: State, p: Phase)
    requires s.Valid() && p.Valid() && !p.Left?
    ensures !Advance(s, p).1.Entered?
  {
  }

  /** Connecting and closing change the PDU size only in their last stretch. */
  lemma InstallLeaves(s: State, op: Op, p: Phase)
    requires s.Valid() && p.Valid() && !p.Left? && Planned(op, p, s.pduSize)
    ensures Advance(s, p).1.Left? || Advance(s, p).0.pduSize == s.pduSize
  {
    AdvanceKeepsPlan(s, op, p);
  }

  lemma InvStep(y: System, s: State, programs: seq<seq<Op>>, holder: Option<nat>, step: Step)
    requires Inv(y, s, programs, holder) && Enabled(y, step)
    ensures Inv(Apply(y, step), s, programs, HolderAfter(holder, step))
  {
    StateStep(y, s, programs, holder, step);
    hide StateOk, WellFormed, ShareOk, StayOk, Apply;
    var y' := Apply(y, step);
    ApplyShape(y, step);
    forall t | 0 <= t < |programs| ensures ShareOk(y', programs, HolderAfter(holder, step), t) {
      SharesStep(y, s, programs, holder, step, t);
    }
    forall i | 0 <= i < |y'.log| ensures y'.log[i].thread < |programs| && StayOk(y', y'.log[i]) {
      if i < |y.log| {
        OldStay(y, step, i);
      } else {
        NewStay(y, s, programs, holder, step);
      }
    }
  }

  lemma ApplyShape(y: System, step: Step)
    requires WellFormed(y) && Enabled(y, step)
    ensures var y' := Apply(y, step);
            && |y'.threads| == |y.threads| && y.log <= y'.log && |y'.log| <= |y.log| + 1
            && (|y'.log| > |y.log| ==> y'.log[|y.log|].thread == step.t)
  {
    hide Advance, Refusal;
  }

  lemma OldStay(y: System, step: Step, i: nat)
    requires WellFormed(y) && Enabled(y, step) && i < |y.log| && StayOk(y, y.log[i])
    ensures WellFormed(Apply(y, step)) && StayOk(Apply(y, step), y.log[i])
  {
    hide Advance, Refusal, Atomic, Replaces;
    ApplyWellFormed(y, step);
    if step.Go? {
      var p := y.threads[step.t].at.phase;
      assert ThreadOk(y.threads[step.t]);
      if !Replaces(p) {
        AdvanceGrows(y.shared, p);
      }
    }
  }

  lemma NewStay(y: System, s: State, programs: seq<seq<Op>>, holder: Option<nat>, step: Step)
    requires Inv(y, s, programs, holder) && Enabled(y, step) && |Apply(y, step).log| > |y.log|
    ensures WellFormed(Apply(y, step)) && StayOk(Apply(y, step), Apply(y, step).log[|y.log|])
  {
    hide Advance, Atomic, Rest, Planned, Refusal, Mine, After, Trail, Sequential;
    ApplyWellFormed(y, step);
    var th := y.threads[step.t];
    assert ShareOk(y, programs, holder, step.t);
    assert ThreadOk(th);
    if step.Unlock? {
      NothingLeft(y.shared, th.at.phase);
    }
  }

  // ---------------------------------------------------------------- whole runs

  function Start(s: State, programs: seq<seq<Op>>): System {
    System(s, 0, false, seq(|programs|, t requires 0 <= t < |programs| => Thread(programs[t], Outside)), [])
  }

  ghost predicate Run(y: System, steps: seq<Step>, y': System)
    decreases |steps|
  {
    if steps == [] then y' == y
    else WellFormed(y) && Enabled(y, steps[0]) && Run(Apply(y, steps[0]), steps[1..], y')
  }

  lemma {:induction false} RunKeeps(y: System, steps: seq<Step>, y': System, s: State, programs: seq<seq<Op>>, holder: Option<nat>)
    returns (holder': Option<nat>)
    requires Inv(y, s, programs, holder) && Run(y, steps, y')
    ensures Inv(y', s, programs, holder')
    decreases |steps|
  {
    hide Inv, Apply, Enabled;
    holder' := holder;
    if steps != [] {
      InvStep(y, s, programs, holder, steps[0]);
      holder' := RunKeeps(Apply(y, steps[0]), steps[1..], y', s, programs, HolderAfter(holder, steps[0]));
    }
  }

  ghost predicate Programs(programs: seq<seq<Op>>) {
    forall t, i :: 0 <= t < |programs| && 0 <= i < |programs[t]| ==> ValidOp(programs[t][i])
  }

  lemma StartInv(s: State, programs: seq<seq<Op>>)
    requires s.Valid() && Programs(programs)
    ensures Inv(Start(s, programs), s, programs, None)
  {
  }

  ghost predicate Finished(y: System) {
    forall t :: 0 <= t < |y.threads| ==> y.threads[t].todo == [] && y.threads[t].at.Outside?
  }

  /**
   Every interleaving is some sequential order: the final state and every outcome are those of the logged operations run
   one after another, and the log holds each goroutine's program in its own order and nothing else.
   */
  lemma EveryRunIsSequential(s: State, programs: seq<seq<Op>>, steps: seq<Step>, y: System)
    requires s.Valid() && Programs(programs) && Run(Start(s, programs), steps, y) && Finished(y)
    ensures Sequential(s, y.log) && y.shared == After(s, y.log)
    ensures forall t :: 0 <= t < |programs| ==> Mine(y.log, t) == programs[t]
    ensures forall i :: 0 <= i < |y.log| ==> y.log[i].thread < |programs|
  {
    StartInv(s, programs);
    var holder := RunKeeps(Start(s, programs), steps, y, s, programs, None);
    hide Sequential, After, Mine;
    assert forall t :: 0 <= t < |y.threads| ==> !y.threads[t].at.Inside?;
    forall t | 0 <= t < |programs| ensures Mine(y.log, t) == programs[t] {
      assert ShareOk(y, programs, holder, t);
      assert Mine(y.log, t) + [] + [] == Mine(y.log, t);
    }
  }

  /** Two goroutines are never inside together, and the one inside still works with the PDU size its chunks were planned for. */
  lemma OneInsideWithItsPlan(s: State, programs: seq<seq<Op>>, steps: seq<Step>, y: System, t: nat, u: nat)
    requires s.Valid() && Programs(programs) && Run(Start(s, programs), steps, y)
    requires t < |y.threads| && u < |y.threads| && y.threads[t].at.Inside?
    ensures y.locked && (y.threads[u].at.Inside? ==> u == t)
    ensures var th := y.threads[t]; th.at.phase.Left? || Planned(th.at.op, th.at.phase, y.shared.pduSize)
  {
    StartInv(s, programs);
    var holder := RunKeeps(Start(s, programs), steps, y, s, programs, None);
    hide Sequential, After, Mine, Planned, Atomic, Rest;
    assert ShareOk(y, programs, holder, t) && ShareOk(y, programs, holder, u);
  }

  /** As long as some goroutine is not finished, some step can be taken. */
  lemma NoDeadlock(s: State, programs: seq<seq<Op>>, steps: seq<Step>, y: System) returns (step: Step)
    requires s.Valid() && Programs(programs) && Run(Start(s, programs), steps, y) && !Finished(y)
    ensures Enabled(y, step)
  {
    StartInv(s, programs);
    var holder := RunKeeps(Start(s, programs), steps, y, s, programs, None);
    hide Sequential, After, Mine, Atomic, Rest, Refusal;
    if holder.Some? {
      var t := holder.value;
      step := if y.threads[t].at.phase.Left? then Unlock(t) else Go(t);
    } else {
      var t :| 0 <= t < |y.threads| && !(y.threads[t].todo == [] && y.threads[t].at.Outside?);
      assert ShareOk(y, programs, holder, t);
      step := if Refusal(y.threads[t].todo[0]).Some? then Refuse(t) else Lock(t);
    }
  }

  function CostOf(ops: seq<Op>): nat {
    if ops == [] then 0 else Cost(ops[0]) + 2 + CostOf(ops[1..])
  }

  function Weight(th: Thread): nat {
    CostOf(th.todo) + match th.at case Outside => 0 case Inside(_, p, _) => Stretches(p) + 1
  }

  function Rank(threads: seq<Thread>): nat {
    if threads == [] then 0 else Weight(threads[0]) + Rank(threads[1..])
  }

  lemma {:induction false} RankUpdate(threads: seq<Thread>, t: nat, th: Thread)
    requires t < |threads|
    ensures Rank(threads[t := th]) + Weight(threads[t]) == Rank(threads) + Weight(th)
  {
    hide Weight;
    if t > 0 {
      RankUpdate(threads[1..], t - 1, th);
      assert threads[t := th][1..] == threads[1..][t - 1 := th];
    } else {
      assert threads[0 := th][1..] == threads[1..];
    }
  }

  /** Every step uses up some of the work there is, so every run ends. */
  lemma RankFalls(y: System, step: Step)
    requires WellFormed(y) && Enabled(y, step)
    ensures Rank(Apply(y, step).threads) < Rank(y.threads)
  {
    hide Advance, Rank, Refusal, Cost;
    var th := y.threads[step.t];
    RankUpdate(y.threads, step.t, Apply(y, step).threads[step.t]);
    assert ThreadOk(th);
    if step.Go? {
      StretchesFall(y.shared, th.at.phase);
    }
  }

  lemma {:induction false} RunsEnd(y: System, steps: seq<Step>, y': System)
    requires Run(y, steps, y')
    ensures |steps| + Rank(y'.threads) <= Rank(y.threads)
    decreases |steps|
  {
    hide Rank, Apply, Enabled;
    if steps != [] {
      RankFalls(y, steps[0]);
      RunsEnd(Apply(y, steps[0]), steps[1..], y');
    }
  }

  // ---------------------------------------------------------------- what is on the wire

  lemma InsideTrail(y: System, s: State, programs: seq<seq<Op>>, holder: Option<nat>, t: nat)
    requires Inv(y, s, programs, holder) && t < |y.threads| && y.threads[t].at.Inside?
    ensures var at := y.threads[t].at; at.before.Valid() && Trail(at.before, at.op, at.phase, y.shared)
  {
    hide Sequential, After, Mine, Planned, Atomic, Rest, Trail, StayOk;
    assert ShareOk(y, programs, holder, t) && ThreadOk(y.threads[t]);
  }

  /**
   While a goroutine is inside an upload past its start, the wire is what it was when it got the mutex, the
   start request, and this session's segment requests: nothing of any other goroutine.
   */
  lemma UploadInProgressOwnsTheWire(s: State, programs: seq<seq<Op>>, steps: seq<Step>, y: System, t: nat) returns (us: seq<Tpdu>)
    requires s.Valid() && Programs(programs) && Run(Start(s, programs), steps, y)
    requires t < |y.threads| && y.threads[t].at.Inside? && (y.threads[t].at.phase.MidUpload? || y.threads[t].at.phase.MustEnd?)
    ensures var Inside(op, phase, before) := y.threads[t].at;
            && op.Uploading? && 0 <= op.num && before.link.Some? && y.shared.link.Some? && before.Valid()
            && y.shared.link.value.sent
               == before.link.value.sent + [DT(StartUploadRequest(NextRef(before), op.blockType, op.num))] + us
            && UP.AllUploads(us, phase.id)
  {
    StartInv(s, programs);
    var holder := RunKeeps(Start(s, programs), steps, y, s, programs, None);
    InsideTrail(y, s, programs, holder, t);
    hide Inv, Run, StartUploadRequest, UP.SessionId, UP.AllUploads;
    var at := y.threads[t].at;
    us := y.shared.link.value.sent[|at.before.link.value.sent| + 1..];
  }

  lemma AfterSession(before: State, after: State, op: Op, id: seq<byte>, us: seq<Tpdu>, mid: State)
    requires op.Uploading? && 0 <= op.num && UP.SessionOnWire(before, after, op.blockType, op.num, id, us, mid)
    ensures after.link.Some?
  {
  }

  /**
   And when it has returned: from the wire it found, the upload put its start, its own segment requests and its one
   end-upload there, the last one missing exactly if its attempt was blocked; as long as the connection is not replaced, the wire
   of the run still begins with just that, so no foreign request ever comes in between.
   */
  lemma UploadsOwnTheWire(s: State, programs: seq<seq<Op>>, steps: seq<Step>, y: System, i: nat)
    returns (us: seq<Tpdu>, mid: State)
    requires s.Valid() && Programs(programs) && Run(Start(s, programs), steps, y) && i < |y.log|
    requires y.log[i].op.Uploading? && y.log[i].stay.Some?
    ensures var op, stay := y.log[i].op, y.log[i].stay.value;
            && stay.before.Valid() && 0 <= op.num
            && (stay.before.link.Some? && UP.SessionId(stay.before, op.blockType, op.num).Some? ==>
                  && UP.SessionOnWire(stay.before, stay.after, op.blockType, op.num,
                                      UP.SessionId(stay.before, op.blockType, op.num).value, us, mid)
                  && (stay.session == y.session ==> y.shared.link.Some? && stay.after.link.Some?
                                                    && stay.after.link.value.sent <= y.shared.link.value.sent))
  {
    StartInv(s, programs);
    var holder := RunKeeps(Start(s, programs), steps, y, s, programs, None);
    assert y.shared.Valid() && StayOk(y, y.log[i]);
    hide Inv, UP.UploadBlock, StartUploadRequest, SessionRequest, UP.SessionId, UP.Cleanup, UP.SessionOnWire, Run;
    var op, before := y.log[i].op, y.log[i].stay.value.before;
    us, mid := [], before;
    if before.link.Some? && UP.SessionId(before, op.blockType, op.num).Some? {
      us, mid := UP.UploadWireTrace(before, op.blockType, op.num);
      AfterSession(before, y.log[i].stay.value.after, op, UP.SessionId(before, op.blockType, op.num).value, us, mid);
    }
  }
}
