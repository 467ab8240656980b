/** client/compare.go: CompareRead's fan-out as a step system, and its agreement verdict. */
module CompareRead {
  import opened Bytes
  import opened Goroutines
  import opened Link
  import H = Handshake
  import Tsap
  import X = Exchange
  import RW = ReadWrite

  datatype CompareCandidate = CompareCandidate(rack: int, slot: int, status: RW.ReadStatus, data: seq<byte>)

  // ---------------------------------------------------------------- one candidate

  /** classifyOpError on the errors of Connect: a reference mismatch in the handshake is not marked as a protocol failure. */
  function ClassifyConnectError(e: H.ConnectError): RW.ReadStatus {
    match e
    case ContextDone(DeadlineExceeded) => RW.Timeout
    case DialFailed(timedOut) => if timedOut then RW.Timeout else RW.TransportErr
    case SendFailed(IoFailed(Cancelled(DeadlineExceeded))) => RW.Timeout
    case SendFailed(IoFailed(NetTimeout)) => RW.Timeout
    case SendFailed(CannotEncode) => RW.ProtocolErr
    case DecodeCOTP => RW.ProtocolErr
    case UnexpectedTPDU => RW.ProtocolErr
    case BadHeader(_) => RW.ProtocolErr
    case WrongFunction => RW.ProtocolErr
    case S7Refused(_, _) => RW.Rejected
    case ShortSetup => RW.Rejected
    case _ => RW.TransportErr
  }

  /** Connect to one candidate, read, close: the entry it brings. */
  function Compared(dial: H.DialOutcome, ctx: nat -> Option<CtxError>, addr: RW.Address, rack: int, slot: int): CompareCandidate {
    var (checks, session) := H.ConnectPair(dial, ctx, rack, slot);
    match session
    case Err(e) => CompareCandidate(rack, slot, ClassifyConnectError(e), [])
    case Ok(s) =>
      match RW.ReadArea(s.Opened(0, ctx, checks), addr).1
      case Err(_) => CompareCandidate(rack, slot, RW.TransportErr, [])
      case Ok(r) => CompareCandidate(rack, slot, r.status, r.data)
  }

  /** A device that answers the setup under another reference than it was asked with. */
  const MISREF := Env(_ => Delivered, frames => if |frames| == 1 then Frame(CC) else H.SetupAnswer(2, H.Setup(1, 1, 480)))

  /** In the handshake that is reported as a transport error, in any later request as a protocol error. */
  lemma MismatchInHandshakeIsTransportError(addr: RW.Address, rack: int, slot: int)
    requires Tsap.ValidateRackSlot(rack, slot).None?
    ensures Compared(H.Accepted(MISREF), NEVER, addr, rack, slot).status == RW.TransportErr
    ensures forall expected, got :: RW.ClassifyOpError(X.PDURefMismatch(expected, got)) == RW.ProtocolErr
  {
    var o := H.PairOptions(rack, slot);
    hide H.SetupRequest, H.SetupAnswer;
    WrongReference();
    H.SetupRequestFits(1, o);
    var (local, remote) := H.TSAPs(o, rack, slot).value;
    var cr, setup := CR(local, remote), DT(H.SetupRequest(1, o.maxAmqCalling, o.maxAmqCalled, o.maxPDU));
    assert [] + [cr] == [cr] && [cr][..1] == [cr] && ([cr] + [setup])[..2] == [cr, setup];
  }

  lemma WrongReference()
    ensures H.ReadSetup(H.SetupAnswer(2, H.Setup(1, 1, 480)), 1) == Err(H.RefMismatch(2))
  {
    H.SetupRoundTrip(2, H.Setup(1, 1, 480));
  }

  /** The candidates, the range to read, and what dialling comes to for each candidate: each has a connection of its own. */
  datatype Task = Task(candidates: seq<(int, int)>, parallelism: int, addr: RW.Address, dial: nat -> H.DialOutcome) {
    /** Zero or negative parallelism is sequential. */
    function Limit(): nat {
      if parallelism <= 0 then 1 else parallelism
    }

    /** The uninterrupted comparison read of the k-th candidate. */
    function ReadOf(k: nat): CompareCandidate
      requires k < |candidates|
    {
      Compared(dial(k), NEVER, addr, candidates[k].0, candidates[k].1)
    }
  }

  /** A connect and read that a done context may cut short anywhere. */
  ghost predicate Interrupted(t: Task, k: nat, c: CompareCandidate, cut: H.DialOutcome, ctx: nat -> Option<CtxError>)
    requires k < |t.candidates|
  {
    H.MayBecome(t.dial(k), cut) && c == Compared(cut, ctx, t.addr, t.candidates[k].0, t.candidates[k].1)
  }

  /** The failure entered for a candidate that was never started. */
  predicate NotStarted(t: Task, k: nat, c: CompareCandidate)
    requires k < |t.candidates|
  {
    (c.rack, c.slot) == t.candidates[k] && c.status in {RW.Timeout, RW.TransportErr} && c.data == []
  }

  /** What slot k may hold: its own read's result, and once the context is done an interrupted one's or the mark of none. */
  ghost predicate Own(t: Task, k: nat, c: CompareCandidate, cancelled: bool) {
    && k < |t.candidates|
    && (NotStarted(t, k, c) || exists cut, ctx :: Interrupted(t, k, c, cut, ctx))
    && (!cancelled ==> c == t.ReadOf(k))
  }

  lemma UninterruptedIsOwn(t: Task, k: nat, cancelled: bool)
    requires k < |t.candidates|
    ensures Own(t, k, t.ReadOf(k), cancelled)
  {
    assert Interrupted(t, k, t.ReadOf(k), t.dial(k), NEVER);
  }

  lemma OwnNamesItsPair(t: Task, k: nat, c: CompareCandidate, cancelled: bool)
    requires Own(t, k, c, cancelled)
    ensures (c.rack, c.slot) == t.candidates[k]
  {
    hide H.ConnectPair, RW.ReadArea;
    if !NotStarted(t, k, c) {
      var cut, ctx :| Interrupted(t, k, c, cut, ctx);
    }
  }

  // ---------------------------------------------------------------- the fan-out

  datatype Launcher = Launching | Filling(next: nat) | Waiting
  /** writes[k] counts the stores into results[k]. */
  datatype Fan = Fan(
    launcher: Launcher, readers: seq<Goroutine>,
    results: seq<Option<CompareCandidate>>, writes: seq<nat>, cancelled: bool, returned: bool)

  datatype Step =
    | Cancel
    | Launch                             // the semaphore wins the select
    | Abandon                            // the context wins it: fill the remaining slots with failures
    | Fill(status: RW.ReadStatus)
    | EndLoop
    | Store(k: nat, c: CompareCandidate)
    | Release(k: nat)
    | Return

  function Init(t: Task): Fan {
    Fan(Launching, [], seq(|t.candidates|, _ => None), seq(|t.candidates|, _ => 0), false, false)
  }

  ghost predicate Enabled(t: Task, f: Fan, s: Step) {
    match s
    case Cancel => !f.cancelled
    case Launch => f.launcher == Launching && |f.readers| < |t.candidates| && Active(f.readers) < t.Limit()
    case Abandon => f.launcher == Launching && |f.readers| < |t.candidates| && f.cancelled
    case Fill(status) => f.launcher.Filling? && f.launcher.next < |f.results| && f.launcher.next < |f.writes|
                         && f.launcher.next < |t.candidates| && f.cancelled && status in {RW.Timeout, RW.TransportErr}
    case EndLoop => (f.launcher == Launching && |f.readers| == |t.candidates|)
                    || (f.launcher.Filling? && f.launcher.next == |t.candidates|)
    case Store(k, c) => k < |f.readers| && f.readers[k].Running? && k < |f.results| && k < |f.writes| && Own(t, k, c, f.cancelled)
    case Release(k) => k < |f.readers| && f.readers[k].Stored?
    case Return => f.launcher == Waiting && !f.returned && forall k :: 0 <= k < |f.readers| ==> f.readers[k].Ended?
  }

  function Put(f: Fan, k: nat, c: CompareCandidate): Fan
    requires k < |f.results| && k < |f.writes|
  {
    f.(results := f.results[k := Some(c)], writes := f.writes[k := f.writes[k] + 1])
  }

  ghost function Apply(t: Task, f: Fan, s: Step): Fan
    requires Enabled(t, f, s)
  {
    match s
    case Cancel => f.(cancelled := true)
    case Launch => f.(readers := f.readers + [Running])
    case Abandon => f.(launcher := Filling(|f.readers|))
    case Fill(status) =>
      var j := f.launcher.next;
      Put(f, j, CompareCandidate(t.candidates[j].0, t.candidates[j].1, status, [])).(launcher := Filling(j + 1))
    case EndLoop => f.(launcher := Waiting)
    case Store(k, c) => Put(f, k, c).(readers := f.readers[k := Stored])
    case Release(k) => f.(readers := f.readers[k := Ended])
    case Return => f.(returned := true)
  }

  /** Slot k has had its one store: by its own reader, or by the launching loop once it gave up. */
  ghost predicate Written(t: Task, f: Fan, k: nat) {
    if k < |f.readers| then !f.readers[k].Running?
    else f.launcher == Waiting || (f.launcher.Filling? && k < f.launcher.next)
  }

  /** The slots, their writes and the launching loop; the semaphore's share is counted apart. */
  ghost predicate SlotsOk(t: Task, f: Fan) {
    && |f.readers| <= |t.candidates| == |f.results| == |f.writes|
    && (forall k :: 0 <= k < |f.writes| ==> SlotOk(t, f, k))
    && (f.launcher.Filling? ==> |f.readers| <= f.launcher.next <= |t.candidates| && f.cancelled)
    && (f.returned ==> f.launcher == Waiting && forall k :: 0 <= k < |f.readers| ==> f.readers[k].Ended?)
  }

  ghost predicate SlotOk(t: Task, f: Fan, k: nat)
    requires k < |f.results| == |f.writes|
  {
    if Written(t, f, k) then f.writes[k] == 1 && f.results[k].Some? && Own(t, k, f.results[k].value, f.cancelled)
    else f.writes[k] == 0 && f.results[k].None?
  }

  ghost predicate Inv(t: Task, f: Fan) {
    SlotsOk(t, f) && Active(f.readers) <= t.Limit()
  }

  lemma SlotStep(t: Task, f: Fan, s: Step, k: nat)
    requires SlotsOk(t, f) && Enabled(t, f, s) && k < |f.results|
    ensures var f' := Apply(t, f, s); |f'.results| == |f'.writes| == |f.results| && SlotOk(t, f', k)
  {
    assert SlotOk(t, f, k);
    OwnStays(t);
    hide Compared;
  }

  lemma OwnStays(t: Task)
    ensures forall k, c :: Own(t, k, c, false) ==> Own(t, k, c, true)
  {
  }

  lemma SlotsStep(t: Task, f: Fan, s: Step)
    requires SlotsOk(t, f) && Enabled(t, f, s)
    ensures SlotsOk(t, Apply(t, f, s))
  {
    hide SlotOk, Own;
    var f' := Apply(t, f, s);
    forall k | 0 <= k < |f'.writes| ensures SlotOk(t, f', k) {
      SlotStep(t, f, s, k);
    }
  }

  lemma InvStep(t: Task, f: Fan, s: Step)
    requires Inv(t, f) && Enabled(t, f, s)
    ensures Inv(t, Apply(t, f, s))
  {
    SlotsStep(t, f, s);
    hide SlotsOk;
    match s
    case Launch => Spawn(f.readers);
    case Store(k, c) => ActiveUpdate(f.readers, k, Stored);
    case Release(k) => ActiveUpdate(f.readers, k, Ended);
    case _ =>
  }

  lemma NoDeadlock(t: Task, f: Fan) returns (s: Step)
    requires Inv(t, f) && !f.returned
    ensures Enabled(t, f, s) && s != Cancel
  {
    if k :| 0 <= k < |f.readers| && !f.readers[k].Ended? {
      UninterruptedIsOwn(t, k, f.cancelled);
      s := if f.readers[k].Stored? then Release(k) else Store(k, t.ReadOf(k));
    } else {
      NoneActive(f.readers);
      s := match f.launcher
           case Launching => if |f.readers| < |t.candidates| then Launch else EndLoop
           case Filling(j) => if j < |t.candidates| then Fill(RW.TransportErr) else EndLoop
           case Waiting => Return;
    }
  }

  ghost function Rank(t: Task, f: Fan): nat
    requires |f.readers| <= |t.candidates| && (f.launcher.Filling? ==> f.launcher.next <= |t.candidates|)
  {
    (match f.launcher
     case Launching => 3 * (|t.candidates| - |f.readers|) + 2
     case Filling(j) => (|t.candidates| - j) + 1
     case Waiting => 0)
    + Weights(f.readers) + Undone(f.cancelled) + Undone(f.returned)
  }

  ghost predicate Bounded(t: Task, f: Fan) {
    |f.readers| <= |t.candidates| && (f.launcher.Filling? ==> f.launcher.next <= |t.candidates|)
  }

  lemma InvBounds(t: Task, f: Fan)
    requires Inv(t, f)
    ensures Bounded(t, f)
  {
  }

  lemma RankFalls(t: Task, f: Fan, s: Step)
    requires Inv(t, f) && Enabled(t, f, s)
    ensures Bounded(t, f) && Bounded(t, Apply(t, f, s)) && Rank(t, Apply(t, f, s)) < Rank(t, f)
  {
    match s
    case Launch => Spawn(f.readers);
    case Store(k, c) => WeightsUpdate(f.readers, k, Stored);
    case Release(k) => WeightsUpdate(f.readers, k, Ended);
    case _ =>
  }

  ghost predicate Run(t: Task, f: Fan, steps: seq<Step>, g: Fan)
    decreases |steps|
  {
    if steps == [] then f == g
    else Enabled(t, f, steps[0]) && Run(t, Apply(t, f, steps[0]), steps[1..], g)
  }

  lemma {:induction false} RunKeeps(t: Task, f: Fan, steps: seq<Step>, g: Fan)
    requires Inv(t, f) && Bounded(t, f) && Run(t, f, steps, g)
    ensures Inv(t, g) && Bounded(t, g) && |steps| + Rank(t, g) <= Rank(t, f)
    decreases |steps|
  {
    hide Inv, Enabled, Apply, Rank;
    if steps != [] {
      InvStep(t, f, steps[0]);
      RankFalls(t, f, steps[0]);
      RunKeeps(t, Apply(t, f, steps[0]), steps[1..], g);
    }
  }

  /**
   Under any schedule, parallelism and cancellation point: the run ends and cannot block before it
   has returned; every slot is then written exactly once, with its own candidate's entry, in order. Uncancelled,
   the entries are those of connecting and reading one candidate after another.
   */
  lemma EverySlotOnce(t: Task, steps: seq<Step>, f: Fan)
    requires Run(t, Init(t), steps, f)
    ensures |steps| <= Rank(t, Init(t)) && (Active(f.readers) <= 1 || Active(f.readers) <= t.parallelism)
    ensures (forall s :: Enabled(t, f, s) ==> s == Cancel) ==> f.returned
    ensures f.returned ==>
              && |f.results| == |t.candidates| == |f.writes|
              && forall k :: 0 <= k < |t.candidates| ==>
                   && f.writes[k] == 1 && f.results[k].Some? && Own(t, k, f.results[k].value, f.cancelled)
                   && (f.results[k].value.rack, f.results[k].value.slot) == t.candidates[k]
    ensures f.returned && !f.cancelled ==> Entries(f.results) == seq(|t.candidates|, k requires 0 <= k < |t.candidates| => t.ReadOf(k))
  {
    RunKeeps(t, Init(t), steps, f);
    hide Run, Enabled, Rank, Own;
    if !f.returned {
      var s := NoDeadlock(t, f);
    } else {
      forall k | 0 <= k < |t.candidates|
        ensures f.writes[k] == 1 && f.results[k].Some? && Own(t, k, f.results[k].value, f.cancelled)
        ensures (f.results[k].value.rack, f.results[k].value.slot) == t.candidates[k]
        ensures !f.cancelled ==> f.results[k].value == t.ReadOf(k)
      {
        assert SlotOk(t, f, k);
        OwnNamesItsPair(t, k, f.results[k].value, f.cancelled);
        OwnUncancelled(t, k, f.results[k].value);
      }
    }
  }

  lemma OwnUncancelled(t: Task, k: nat, c: CompareCandidate)
    requires k < |t.candidates|
    ensures Own(t, k, c, false) ==> c == t.ReadOf(k)
  {
  }

  function Entries(results: seq<Option<CompareCandidate>>): (e: seq<CompareCandidate>)
    ensures |e| == |results|
  {
    seq(|results|, k requires 0 <= k < |results| => results[k].GetOr(CompareCandidate(0, 0, RW.OtherStatus(""), [])))
  }

  // ---------------------------------------------------------------- the verdict

  /** There are at least two candidates, all succeeded, and all read the same. */
  predicate Insensitive(all: seq<CompareCandidate>) {
    && |all| >= 2 && (forall i :: 0 <= i < |all| ==> all[i].status == RW.Success)
    && (forall i, j :: 0 <= i < |all| && 0 <= j < |all| ==> all[i].data == all[j].data)
  }

  /** So the flag of an uncancelled run says whether connecting to each of the candidates in turn would read the same everywhere. */
  lemma VerdictOfTheRun(t: Task, steps: seq<Step>, f: Fan)
    requires Run(t, Init(t), steps, f) && f.returned && !f.cancelled
    ensures Insensitive(Entries(f.results))
            <==> && |t.candidates| >= 2
                 && (forall k :: 0 <= k < |t.candidates| ==> t.ReadOf(k).status == RW.Success)
                 && (forall j, k :: 0 <= j < |t.candidates| && 0 <= k < |t.candidates| ==> t.ReadOf(j).data == t.ReadOf(k).data)
  {
    EverySlotOnce(t, steps, f);
    hide Compared, Run;
    var all := Entries(f.results);
    assert |all| == |t.candidates| && forall k :: 0 <= k < |t.candidates| ==> all[k] == t.ReadOf(k);
  }

  /** The flag loop of CompareRead, from the first success on. */
  method RackSlotInsensitive(all: seq<CompareCandidate>) returns (same: bool)
    ensures same <==> Insensitive(all)
  {
    if |all| < 2 {
      return false;
    }
    var firstOK := -1;
    for i := 0 to |all|
      invariant firstOK == -1 && forall k :: 0 <= k < i ==> all[k].status != RW.Success
    {
      if all[i].status == RW.Success {
        firstOK := i;
        break;
      }
    }
    if firstOK < 0 {
      assert all[0].status != RW.Success;
      return false;
    }
    var reference := all[firstOK].data;
    for i := 0 to |all|
      invariant forall k :: 0 <= k < i ==> all[k].status == RW.Success && all[k].data == reference
    {
      if all[i].status != RW.Success {
        return false;
      }
      if all[i].data != reference {
        assert all[i].data != all[firstOK].data;
        return false;
      }
    }
    return true;
  }
}
