/**
 client/probe.go: ProbeRackSlots. The launching loop and its goroutines are a step system; the
 summary is a loop over the candidates.
 */
module RackSlotProbe {
  import opened Bytes
  import opened Goroutines
  import opened Link
  import opened ProbeOne
  import H = Handshake
  import Discover
  import Tsap

  const ZERO := Candidate(0, 0, NoStatus, 0)

  // ---------------------------------------------------------------- the jobs

  predicate Before(a: (int, int), b: (int, int)) {
    a.0 < b.0 || (a.0 == b.0 && a.1 < b.1)
  }

  ghost predicate Increasing(pairs: seq<(int, int)>) {
    forall i, j :: 0 <= i < j < |pairs| ==> Before(pairs[i], pairs[j])
  }

  lemma {:induction false} RowIsExact(rack: int, slotMin: int, slotMax: int)
    ensures Increasing(Discover.Row(rack, slotMin, slotMax))
    ensures forall r, s :: (r, s) in Discover.Row(rack, slotMin, slotMax) <==> r == rack && slotMin <= s <= slotMax
    decreases slotMax - slotMin
  {
    if slotMin <= slotMax {
      var rest := Discover.Row(rack, slotMin + 1, slotMax);
      RowIsExact(rack, slotMin + 1, slotMax);
      forall j | 0 <= j < |rest| ensures Before((rack, slotMin), rest[j]) {
        assert (rest[j].0, rest[j].1) in rest;
      }
    }
  }

  /** The jobs are all the pairs of the ranges, in strictly increasing rack/slot order. */
  lemma {:induction false} GridIsExact(rackMin: int, rackMax: int, slotMin: int, slotMax: int)
    ensures Increasing(Discover.Grid(rackMin, rackMax, slotMin, slotMax))
    ensures forall r, s :: (r, s) in Discover.Grid(rackMin, rackMax, slotMin, slotMax)
                           <==> rackMin <= r <= rackMax && slotMin <= s <= slotMax
    decreases rackMax - rackMin
  {
    if rackMin <= rackMax {
      var row, rest := Discover.Row(rackMin, slotMin, slotMax), Discover.Grid(rackMin + 1, rackMax, slotMin, slotMax);
      RowIsExact(rackMin, slotMin, slotMax);
      GridIsExact(rackMin + 1, rackMax, slotMin, slotMax);
      forall i, j | 0 <= i < |row| && 0 <= j < |rest| ensures Before(row[i], rest[j]) {
        assert (row[i].0, row[i].1) in row && (rest[j].0, rest[j].1) in rest;
      }
    }
  }

  method BuildJobs(rackMin: int, rackMax: int, slotMin: int, slotMax: int) returns (jobs: seq<(int, int)>)
    ensures jobs == Discover.Grid(rackMin, rackMax, slotMin, slotMax)
  {
    hide Discover.Grid, Discover.Row;
    jobs := [];
    ghost var all := Discover.Grid(rackMin, rackMax, slotMin, slotMax);
    assert jobs + all == all;
    var rack := rackMin;
    while rack <= rackMax
      invariant all == jobs + Discover.Grid(rack, rackMax, slotMin, slotMax)
      decreases rackMax - rack
    {
      var slot := slotMin;
      ghost var below := Discover.Grid(rack + 1, rackMax, slotMin, slotMax);
      Discover.GridOpens(rack, rackMax, slotMin, slotMax);
      while slot <= slotMax
        invariant all == jobs + (Discover.Row(rack, slot, slotMax) + below)
        decreases slotMax - slot
      {
        Discover.RowOpens(rack, slot, slotMax);
        NextJob(jobs, (rack, slot), Discover.Row(rack, slot + 1, slotMax), below);
        jobs := jobs + [(rack, slot)];
        slot := slot + 1;
      }
      Discover.RowEnds(rack, slot, slotMax);
      assert [] + below == below;
      rack := rack + 1;
    }
    Discover.GridEnds(rack, rackMax, slotMin, slotMax);
    assert jobs + [] == jobs;
  }

  lemma NextJob(jobs: seq<(int, int)>, next: (int, int), row: seq<(int, int)>, below: seq<(int, int)>)
    ensures jobs + (([next] + row) + below) == (jobs + [next]) + (row + below)
  {
  }

  /** How many of the jobs may be tried. */
  function MaxJobs(jobs: nat, cap: nat): (n: nat)
    ensures n <= jobs && (cap > 0 ==> n <= cap) && (n < jobs ==> n == cap)
  {
    if cap > 0 && jobs > cap then cap else jobs
  }

  /** Distinct pairs of the valid ranges get distinct remote TSAPs, and each TSAP decodes to its pair. */
  lemma TsapsTellPairsApart(rackA: int, slotA: int, rackB: int, slotB: int)
    requires Tsap.BuildTSAP(3, rackA, slotA).Ok? && Tsap.BuildTSAP(3, rackB, slotB).Ok?
    ensures (rackA, slotA) == (Tsap.RackOf(Tsap.BuildTSAP(3, rackA, slotA).value), Tsap.SlotOf(Tsap.BuildTSAP(3, rackA, slotA).value))
    ensures Tsap.BuildTSAP(3, rackA, slotA) == Tsap.BuildTSAP(3, rackB, slotB) ==> (rackA, slotA) == (rackB, slotB)
  {
    Tsap.TsapRoundTrip(3, rackA, slotA);
    Tsap.TsapRoundTrip(3, rackB, slotB);
  }

  // ---------------------------------------------------------------- the fan-out

  /** What a probe run is asked for, and what dialling comes to for each job: every probe opens a connection of its own. */
  datatype Task = Task(
    jobs: seq<(int, int)>, maxJobs: nat, parallelism: nat, req: Request, stopOnFirst: bool, dial: nat -> H.DialOutcome)
  {
    predicate Valid() {
      maxJobs <= |jobs| && parallelism >= 1
    }

    /** The uninterrupted probe of the k-th job. */
    function ProbeOf(k: nat): Candidate
      requires k < |jobs|
    {
      Probed(dial(k), req, NEVER, jobs[k].0, jobs[k].1).c
    }
  }

  /** A probe of the k-th job that a done context may cut short anywhere. */
  ghost predicate Interrupted(t: Task, k: nat, c: Candidate, cut: H.DialOutcome, ctx: nat -> Option<CtxError>)
    requires k < |t.jobs|
  {
    H.MayBecome(t.dial(k), cut) && c == Probed(cut, t.req, ctx, t.jobs[k].0, t.jobs[k].1).c
  }

  /** What a probe of the k-th job may store: its result, or an interrupted one's if the context is done. */
  ghost predicate Honest(t: Task, k: nat, c: Candidate, cancelled: bool) {
    && k < |t.jobs| && (exists cut, ctx :: Interrupted(t, k, c, cut, ctx))
    && (!cancelled ==> c == t.ProbeOf(k))
  }

  lemma UninterruptedIsHonest(t: Task, k: nat, cancelled: bool)
    requires k < |t.jobs|
    ensures Honest(t, k, t.ProbeOf(k), cancelled)
  {
    assert Interrupted(t, k, t.ProbeOf(k), t.dial(k), NEVER);
  }

  lemma HonestNamesItsPair(t: Task, k: nat, c: Candidate, cancelled: bool)
    requires Honest(t, k, c, cancelled)
    ensures (c.rack, c.slot) == t.jobs[k]
  {
    var cut, ctx :| Interrupted(t, k, c, cut, ctx);
    ProbeAgreesWithConnect(cut, t.req, ctx, t.jobs[k].0, t.jobs[k].1);
  }

  datatype Launcher = AtTop | PastCheck | Stopped
  /** lateStarts counts the probes started after a cancellation. */
  datatype Fan = Fan(
    launcher: Launcher, probes: seq<Goroutine>, candidates: seq<Candidate>,
    cancelled: bool, outerDone: bool, lateStarts: nat, returned: bool)

  datatype Step =
    | OuterCancel
    | Check          // the non-blocking look at the context at the top of the loop
    | GiveUp         // the context wins one of the later selects
    | Launch         // the semaphore wins the last select
    | EndLoop
    | Store(k: nat, c: Candidate)
    | Release(k: nat)
    | Return

  function Init(t: Task): Fan {
    Fan(AtTop, [], seq(|t.jobs|, _ => ZERO), false, false, 0, false)
  }

  ghost predicate Enabled(t: Task, f: Fan, s: Step) {
    match s
    case OuterCancel => !f.outerDone
    case Check => f.launcher == AtTop && |f.probes| < t.maxJobs
    case GiveUp => f.launcher == PastCheck && f.cancelled
    case Launch => f.launcher == PastCheck && Active(f.probes) < t.parallelism
    case EndLoop => f.launcher == AtTop && |f.probes| == t.maxJobs
    case Store(k, c) => k < |f.probes| && f.probes[k].Running? && k < |f.candidates| && Honest(t, k, c, f.cancelled)
    case Release(k) => k < |f.probes| && f.probes[k].Stored?
    case Return => f.launcher == Stopped && !f.returned && forall k :: 0 <= k < |f.probes| ==> f.probes[k].Ended?
  }

  ghost function Apply(t: Task, f: Fan, s: Step): Fan
    requires Enabled(t, f, s)
  {
    match s
    case OuterCancel => f.(cancelled := true, outerDone := true)
    case Check => f.(launcher := if f.cancelled then Stopped else PastCheck)
    case GiveUp => f.(launcher := Stopped)
    case Launch => f.(launcher := AtTop, probes := f.probes + [Running], lateStarts := f.lateStarts + if f.cancelled then 1 else 0)
    case EndLoop => f.(launcher := Stopped)
    case Store(k, c) =>
      f.(probes := f.probes[k := Stored], candidates := f.candidates[k := c],
         cancelled := f.cancelled || (CountsAsValid(t.req.strict, c) && t.stopOnFirst))
    case Release(k) => f.(probes := f.probes[k := Ended])
    case Return => f.(returned := true)
  }

  /**
   The probes launched are those of a prefix of the jobs; a stored entry is its own probe's, every
   other entry is zero; no more run at once than allowed; at most one starts after a cancellation.
   */
  ghost predicate Inv(t: Task, f: Fan) {
    && t.Valid() && |f.probes| <= t.maxJobs && |f.candidates| == |t.jobs|
    && Active(f.probes) <= t.parallelism
    && (forall k :: 0 <= k < |f.candidates| ==>
          if k < |f.probes| && !f.probes[k].Running?
          then Honest(t, k, f.candidates[k], f.cancelled) else f.candidates[k] == ZERO)
    && f.lateStarts <= 1 && (f.lateStarts == 1 ==> f.cancelled && f.launcher != PastCheck)
    && (f.launcher == PastCheck ==> |f.probes| < t.maxJobs)
    && (f.launcher == Stopped ==> f.cancelled || |f.probes| == t.maxJobs)
    && (f.outerDone ==> f.cancelled)
    && (f.returned ==> f.launcher == Stopped && forall k :: 0 <= k < |f.probes| ==> f.probes[k].Ended?)
  }

  lemma HonestStays(t: Task)
    ensures forall k, c :: Honest(t, k, c, false) ==> Honest(t, k, c, true)
  {
  }

  lemma InvStep(t: Task, f: Fan, s: Step)
    requires Inv(t, f) && Enabled(t, f, s)
    ensures Inv(t, Apply(t, f, s))
  {
    HonestStays(t);
    hide Honest;
    match s
    case Launch => Spawn(f.probes);
    case Store(k, c) => ActiveUpdate(f.probes, k, Stored);
    case Release(k) => ActiveUpdate(f.probes, k, Ended);
    case _ =>
  }

  /** What cancels the run: the caller, or, when it is to stop on the first, a stored result that counts as valid. */
  ghost predicate StopsRight(t: Task, f: Fan) {
    f.cancelled <==> f.outerDone || (t.stopOnFirst && exists k :: 0 <= k < |f.candidates| && CountsAsValid(t.req.strict, f.candidates[k]))
  }

  lemma StopsStep(t: Task, f: Fan, s: Step)
    requires Inv(t, f) && Enabled(t, f, s) && StopsRight(t, f)
    ensures StopsRight(t, Apply(t, f, s))
  {
    hide Honest;
    if s.Store? {
      var f' := Apply(t, f, s);
      assert !CountsAsValid(t.req.strict, f.candidates[s.k]) && f'.candidates[s.k] == s.c;
      forall k | 0 <= k < |f.candidates| && k != s.k ensures f'.candidates[k] == f.candidates[k] {}
      if k :| 0 <= k < |f.candidates| && CountsAsValid(t.req.strict, f.candidates[k]) {
        assert CountsAsValid(t.req.strict, f'.candidates[k]);
      }
    }
  }

  lemma {:induction false} RunStopsRight(t: Task, f: Fan, steps: seq<Step>, g: Fan)
    requires Inv(t, f) && StopsRight(t, f) && Run(t, f, steps, g)
    ensures StopsRight(t, g)
    decreases |steps|
  {
    hide Inv, Enabled, Apply, StopsRight;
    if steps != [] {
      InvStep(t, f, steps[0]);
      StopsStep(t, f, steps[0]);
      RunStopsRight(t, Apply(t, f, steps[0]), steps[1..], g);
    }
  }

  /**
   At every moment of every run it is cancelled exactly if the caller has cancelled it or, when it is to stop on the first,
   some result stored so far counts as valid; after that at most one more probe starts.
   */
  lemma StopsOnFirstExactly(t: Task, steps: seq<Step>, f: Fan)
    requires t.Valid() && Run(t, Init(t), steps, f)
    ensures f.cancelled <==> f.outerDone || (t.stopOnFirst && exists k :: 0 <= k < |f.candidates| && CountsAsValid(t.req.strict, f.candidates[k]))
    ensures f.lateStarts <= 1
  {
    InitStops(t);
    RunStopsRight(t, Init(t), steps, f);
    ProbeFanOut(t, steps, f);
    hide Run;
  }

  lemma InitStops(t: Task)
    requires t.Valid()
    ensures Inv(t, Init(t)) && StopsRight(t, Init(t))
  {
  }

  lemma NoDeadlock(t: Task, f: Fan) returns (s: Step)
    requires Inv(t, f) && !f.returned
    ensures Enabled(t, f, s) && s != OuterCancel
  {
    if k :| 0 <= k < |f.probes| && !f.probes[k].Ended? {
      UninterruptedIsHonest(t, k, f.cancelled);
      s := if f.probes[k].Stored? then Release(k) else Store(k, t.ProbeOf(k));
    } else {
      NoneActive(f.probes);
      s := match f.launcher
           case AtTop => if |f.probes| < t.maxJobs then Check else EndLoop
           case PastCheck => Launch
           case Stopped => Return;
    }
  }

  ghost function Rank(t: Task, f: Fan): nat
    requires |f.probes| <= t.maxJobs
  {
    5 * (t.maxJobs - |f.probes|) + (match f.launcher case AtTop => 2 case PastCheck => 1 case Stopped => 0)
    + Weights(f.probes) + Undone(f.outerDone) + Undone(f.returned)
  }

  lemma RankFalls(t: Task, f: Fan, s: Step)
    requires Inv(t, f) && Enabled(t, f, s)
    ensures |Apply(t, f, s).probes| <= t.maxJobs && Rank(t, Apply(t, f, s)) < Rank(t, f)
  {
    match s
    case Launch => Spawn(f.probes);
    case Store(k, c) => WeightsUpdate(f.probes, k, Stored);
    case Release(k) => WeightsUpdate(f.probes, k, Ended);
    case _ =>
  }

  ghost predicate Run(t: Task, f: Fan, steps: seq<Step>, g: Fan)
    decreases |steps|
  {
    if steps == [] then f == g
    else Enabled(t, f, steps[0]) && Run(t, Apply(t, f, steps[0]), steps[1..], g)
  }

  lemma {:induction false} RunKeeps(t: Task, f: Fan, steps: seq<Step>, g: Fan)
    requires Inv(t, f) && Run(t, f, steps, g)
    ensures Inv(t, g) && |steps| + Rank(t, g) <= Rank(t, f)
    decreases |steps|
  {
    hide Inv, Enabled, Apply, Rank;
    assert |f.probes| <= t.maxJobs by {
      InvBounds(t, f);
    }
    if steps != [] {
      InvStep(t, f, steps[0]);
      RankFalls(t, f, steps[0]);
      RunKeeps(t, Apply(t, f, steps[0]), steps[1..], g);
    }
    InvBounds(t, g);
  }

  lemma InvBounds(t: Task, f: Fan)
    requires Inv(t, f)
    ensures |f.probes| <= t.maxJobs
  {
  }

  /**
   The fan-out refines the sequential probing. Every schedule ends, never blocks before returning, and when it has
   returned: the entries of a prefix of the jobs are the probes of their own pairs (interrupted ones only after a
   cancellation), all others are zero, and the prefix is everything allowed unless something cancelled. Throughout, no
   more probes are active than allowed and at most one was started after a cancellation.
   */
  lemma ProbeFanOut(t: Task, steps: seq<Step>, f: Fan)
    requires t.Valid() && Run(t, Init(t), steps, f)
    ensures |steps| <= Rank(t, Init(t))
    ensures (forall s :: Enabled(t, f, s) ==> s == OuterCancel) ==> f.returned
    ensures Active(f.probes) <= t.parallelism && f.lateStarts <= 1
    ensures f.returned ==>
              && |f.candidates| == |t.jobs| && |f.probes| <= t.maxJobs && (!f.cancelled ==> |f.probes| == t.maxJobs)
              && (forall k :: 0 <= k < |f.probes| ==>
                    Honest(t, k, f.candidates[k], f.cancelled) && (f.candidates[k].rack, f.candidates[k].slot) == t.jobs[k])
              && (forall k :: |f.probes| <= k < |f.candidates| ==> f.candidates[k] == ZERO)
    ensures f.returned && !f.cancelled ==> forall k :: 0 <= k < t.maxJobs ==> f.candidates[k] == t.ProbeOf(k)
  {
    RunKeeps(t, Init(t), steps, f);
    hide Enabled, Rank, Run;
    if !f.returned {
      var s := NoDeadlock(t, f);
    } else {
      forall k | 0 <= k < |f.probes| ensures (f.candidates[k].rack, f.candidates[k].slot) == t.jobs[k] {
        HonestNamesItsPair(t, k, f.candidates[k], f.cancelled);
      }
    }
  }

  // ---------------------------------------------------------------- the summary

  function ValidOnes(cs: seq<Candidate>, strict: bool): seq<Candidate> {
    if cs == [] then []
    else ValidOnes(cs[..|cs| - 1], strict) + if CountsAsValid(strict, cs[|cs| - 1]) then [cs[|cs| - 1]] else []
  }

  function CountOf(cs: seq<Candidate>, p: ProbeStatus -> bool): nat {
    if cs == [] then 0 else CountOf(cs[..|cs| - 1], p) + if p(cs[|cs| - 1].status) then 1 else 0
  }

  datatype Summary = Summary(valid: seq<Candidate>, setupAccepted: nat, confirmedByQuery: nat, tcpOnly: nat, flaky: nat)

  method Summarize(candidates: seq<Candidate>, strict: bool) returns (r: Summary)
    ensures r == Summary(ValidOnes(candidates, strict), CountOf(candidates, SetupDone), CountOf(candidates, s => s == ValidQuery),
                         CountOf(candidates, s => s == TCPOnly), CountOf(candidates, s => s == Flaky))
  {
    var valid := FilterValid(candidates, strict);
    hide ValidOnes;
    var accepted, confirmed, tcpOnly, flaky := 0, 0, 0, 0;
    for i := 0 to |candidates|
      invariant accepted == CountOf(candidates[..i], SetupDone) && confirmed == CountOf(candidates[..i], s => s == ValidQuery)
      invariant tcpOnly == CountOf(candidates[..i], s => s == TCPOnly) && flaky == CountOf(candidates[..i], s => s == Flaky)
    {
      assert candidates[..i + 1][..i] == candidates[..i];
      var c := candidates[i];
      if c.status == SetupOnly || c.status == ValidConnect || c.status == ValidQuery {
        accepted := accepted + 1;
      }
      if c.status == ValidQuery {
        confirmed := confirmed + 1;
      }
      if c.status == TCPOnly {
        tcpOnly := tcpOnly + 1;
      }
      if c.status == Flaky {
        flaky := flaky + 1;
      }
    }
    assert candidates[..|candidates|] == candidates;
    r := Summary(valid, accepted, confirmed, tcpOnly, flaky);
  }

  method FilterValid(candidates: seq<Candidate>, strict: bool) returns (valid: seq<Candidate>)
    ensures valid == ValidOnes(candidates, strict)
  {
    valid := [];
    for i := 0 to |candidates|
      invariant valid == ValidOnes(candidates[..i], strict)
    {
      assert candidates[..i + 1][..i] == candidates[..i];
      var c := candidates[i];
      if strict {
        if c.status == ValidQuery {
          valid := valid + [c];
        }
      } else {
        if c.status == SetupOnly || c.status == ValidConnect || c.status == ValidQuery {
          valid := valid + [c];
        }
      }
    }
    assert candidates[..|candidates|] == candidates;
  }

  /** Where the candidates that count as valid are, in order. */
  ghost predicate ValidAt(cs: seq<Candidate>, strict: bool, at: seq<nat>) {
    && |at| == |ValidOnes(cs, strict)|
    && (forall i :: 0 <= i < |at| ==> at[i] < |cs| && ValidOnes(cs, strict)[i] == cs[at[i]])
    && (forall i, j :: 0 <= i < j < |at| ==> at[i] < at[j])
    && (forall k :: 0 <= k < |cs| ==> (CountsAsValid(strict, cs[k]) <==> k in at))
  }

  lemma ValidOneMore(cs: seq<Candidate>, strict: bool, before: seq<nat>)
    requires cs != [] && ValidAt(cs[..|cs| - 1], strict, before)
    ensures ValidAt(cs, strict, before + if CountsAsValid(strict, cs[|cs| - 1]) then [|cs| - 1] else [])
  {
    var last := |cs| - 1;
    var p, valid := cs[..last], CountsAsValid(strict, cs[last]);
    var at := before + if valid then [last] else [];
    assert ValidOnes(cs, strict) == ValidOnes(p, strict) + if valid then [cs[last]] else [];
    hide CountsAsValid, ValidOnes;
    forall i | 0 <= i < |at| ensures at[i] < |cs| && ValidOnes(cs, strict)[i] == cs[at[i]] {
      if i < |before| {
        assert ValidOnes(p, strict)[i] == p[before[i]];
      }
    }
    forall k | 0 <= k < |cs| ensures CountsAsValid(strict, cs[k]) <==> k in at {
      if k < last {
        assert cs[..last][k] == cs[k];
        assert k in at <==> k in before;
      }
    }
  }

  lemma {:induction false} ValidCount(cs: seq<Candidate>, strict: bool)
    ensures |ValidOnes(cs, strict)| == if strict then CountOf(cs, s => s == ValidQuery) else CountOf(cs, SetupDone)
    decreases |cs|
  {
    if cs != [] {
      ValidCount(cs[..|cs| - 1], strict);
    }
  }

  /** The valid list is the candidates that count as valid, in order; the matching counter is its length. */
  lemma {:induction false} ValidMatchesCounters(cs: seq<Candidate>, strict: bool) returns (at: seq<nat>)
    ensures |ValidOnes(cs, strict)| == if strict then CountOf(cs, s => s == ValidQuery) else CountOf(cs, SetupDone)
    ensures ValidAt(cs, strict, at)
    decreases |cs|
  {
    ValidCount(cs, strict);
    at := [];
    if cs != [] {
      hide ValidAt;
      var before := ValidMatchesCounters(cs[..|cs| - 1], strict);
      ValidOneMore(cs, strict, before);
      at := before + if CountsAsValid(strict, cs[|cs| - 1]) then [|cs| - 1] else [];
    }
  }

  /**
   So the valid list of an uncancelled run is, in order, the tried pairs to which a client connects over the same
   network (and, for a strict run, whose follow-up query then confirms).
   */
  lemma ValidAreTheConnectable(t: Task, steps: seq<Step>, f: Fan) returns (at: seq<nat>)
    requires t.Valid() && Run(t, Init(t), steps, f) && f.returned && !f.cancelled
    ensures ValidAt(f.candidates, t.req.strict, at)
    ensures forall k :: 0 <= k < |t.jobs| ==> (k in at <==> k < t.maxJobs && Connectable(t, k))
  {
    ProbeFanOut(t, steps, f);
    at := ValidMatchesCounters(f.candidates, t.req.strict);
    hide Run, Enabled, Probed, ValidOnes, Honest;
    forall k | 0 <= k < |t.jobs| ensures k in at <==> k < t.maxJobs && Connectable(t, k) {
      ProbeAgreesWithConnect(t.dial(k), t.req, NEVER, t.jobs[k].0, t.jobs[k].1);
      assert k in at <==> CountsAsValid(t.req.strict, f.candidates[k]);
    }
  }

  predicate Connectable(t: Task, k: nat)
    requires k < |t.jobs|
  {
    var (rack, slot) := t.jobs[k];
    var session := H.Attempt(ConnectOptions(t.req, rack, slot), t.dial(k), NEVER, 0, rack, slot).1;
    && RemoteTSAP(t.req, rack, slot).Ok? && session.Ok?
    && (t.req.strict ==> RunFollowUp(session.value.link, t.req.confirm).1.Some?)
  }
}
