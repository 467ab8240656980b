/**
 client/discover.go: the per-host probe, and Discover's worker pool as a step system. A step is one
 atomic action of one goroutine; a schedule is any sequence of enabled steps.
 */
module Discover {
  import opened Bytes
  import opened Link
  import Goroutines
  import H = Handshake
  import Cidr

  datatype Reason = NotAbandoned | MaxAttempts | ContextCanceled
  datatype DiscoverResult = DiscoverResult(ip: seq<byte>, isS7: bool, rack: int, slot: int, pduSize: nat, tsap: u16, abandoned: Reason)

  /** A negotiated session as Connect and ConnectionInfo report it. */
  datatype Negotiated = Negotiated(pduSize: nat, tsap: u16)

  function NotFound(ip: seq<byte>, why: Reason): DiscoverResult {
    DiscoverResult(ip, false, 0, 0, 0, 0, why)
  }

  // ---------------------------------------------------------------- one host

  /** The rack/slot pairs in the order the nested loops visit them. */
  function Grid(rackMin: int, rackMax: int, slotMin: int, slotMax: int): seq<(int, int)>
    decreases rackMax - rackMin
  {
    if rackMin > rackMax then [] else Row(rackMin, slotMin, slotMax) + Grid(rackMin + 1, rackMax, slotMin, slotMax)
  }

  function Row(rack: int, slotMin: int, slotMax: int): seq<(int, int)>
    decreases slotMax - slotMin
  {
    if slotMin > slotMax then [] else [(rack, slotMin)] + Row(rack, slotMin + 1, slotMax)
  }

  lemma GridOpens(rack: int, rackMax: int, slotMin: int, slotMax: int)
    requires rack <= rackMax
    ensures Grid(rack, rackMax, slotMin, slotMax)
         == Row(rack, slotMin, slotMax) + Grid(rack + 1, rackMax, slotMin, slotMax)
  {
  }

  lemma GridEnds(rack: int, rackMax: int, slotMin: int, slotMax: int)
    requires rack > rackMax
    ensures Grid(rack, rackMax, slotMin, slotMax) == []
  {
  }

  lemma RowOpens(rack: int, slot: int, slotMax: int)
    requires slot <= slotMax
    ensures Row(rack, slot, slotMax) == [(rack, slot)] + Row(rack, slot + 1, slotMax)
  {
  }

  lemma RowEnds(rack: int, slot: int, slotMax: int)
    requires slot > slotMax
    ensures Row(rack, slot, slotMax) == []
  {
  }

  /** Probing the pairs in turn: canceled(k) is what the context says before attempt k, connect what an attempt brings. */
  function Probe(ip: seq<byte>, pairs: seq<(int, int)>, attempts: nat, cap: nat,
                 canceled: nat -> bool, connect: (int, int) -> Option<Negotiated>): DiscoverResult
    decreases |pairs|
  {
    if pairs == [] then NotFound(ip, NotAbandoned)
    else if cap > 0 && attempts >= cap then NotFound(ip, MaxAttempts)
    else if canceled(attempts) then NotFound(ip, ContextCanceled)
    else
      match connect(pairs[0].0, pairs[0].1)
      case Some(n) => DiscoverResult(ip, true, pairs[0].0, pairs[0].1, n.pduSize, n.tsap, NotAbandoned)
      case None => Probe(ip, pairs[1..], attempts + 1, cap, canceled, connect)
  }

  method ProbeS7(ip: seq<byte>, rackMin: int, rackMax: int, slotMin: int, slotMax: int, cap: nat,
                 canceled: nat -> bool, connect: (int, int) -> Option<Negotiated>) returns (result: DiscoverResult)
    ensures result == Probe(ip, Grid(rackMin, rackMax, slotMin, slotMax), 0, cap, canceled, connect)
  {
    hide Grid, Row;
    ghost var all := Probe(ip, Grid(rackMin, rackMax, slotMin, slotMax), 0, cap, canceled, connect);
    var attempts := 0;
    var rack := rackMin;
    while rack <= rackMax
      invariant all == Probe(ip, Grid(rack, rackMax, slotMin, slotMax), attempts, cap, canceled, connect)
      decreases rackMax - rack
    {
      var slot := slotMin;
      ghost var below := Grid(rack + 1, rackMax, slotMin, slotMax);
      GridOpens(rack, rackMax, slotMin, slotMax);
      while slot <= slotMax
        invariant all == Probe(ip, Row(rack, slot, slotMax) + below, attempts, cap, canceled, connect)
        decreases slotMax - slot
      {
        RowOpens(rack, slot, slotMax);
        assert Row(rack, slot, slotMax) + below == [(rack, slot)] + (Row(rack, slot + 1, slotMax) + below);
        if cap > 0 && attempts >= cap {
          return NotFound(ip, MaxAttempts);
        }
        if canceled(attempts) {
          return NotFound(ip, ContextCanceled);
        }
        attempts := attempts + 1;
        var n := connect(rack, slot);
        if n.Some? {
          return DiscoverResult(ip, true, rack, slot, n.value.pduSize, n.value.tsap, NotAbandoned);
        }
        slot := slot + 1;
      }
      RowEnds(rack, slot, slotMax);
      assert [] + below == below;
      rack := rack + 1;
    }
    GridEnds(rack, rackMax, slotMin, slotMax);
    return NotFound(ip, NotAbandoned);
  }

  /** The context is not done before attempt i, which brings nothing. */
  predicate FailedAt(pairs: seq<(int, int)>, attempts: nat, canceled: nat -> bool, connect: (int, int) -> Option<Negotiated>, i: nat)
    requires i < |pairs|
  {
    !canceled(attempts + i) && connect(pairs[i].0, pairs[i].1).None?
  }

  /**
   A probe makes k attempts in order, which fail, and then it reports the pair that connects next, or that none is left,
   that the cap is reached, or that the context is done. So uncancelled it finds the first pair that connects among those
   the cap allows, and nothing exactly when none of them does.
   */
  lemma {:induction false} ProbeFindsFirst(ip: seq<byte>, pairs: seq<(int, int)>, attempts: nat, cap: nat,
                                           canceled: nat -> bool, connect: (int, int) -> Option<Negotiated>) returns (k: nat)
    ensures k <= |pairs| && (cap > attempts ==> attempts + k <= cap) && (0 < cap <= attempts ==> k == 0)
    ensures forall i :: 0 <= i < k ==> FailedAt(pairs, attempts, canceled, connect, i)
    ensures var r := Probe(ip, pairs, attempts, cap, canceled, connect);
            if k == |pairs| then r == NotFound(ip, NotAbandoned)
            else if cap > 0 && attempts + k >= cap then r == NotFound(ip, MaxAttempts)
            else if canceled(attempts + k) then r == NotFound(ip, ContextCanceled)
            else
              && r.ip == ip && r.isS7 && (r.rack, r.slot) == pairs[k] && r.abandoned == NotAbandoned
              && connect(r.rack, r.slot) == Some(Negotiated(r.pduSize, r.tsap))
    decreases |pairs|
  {
    if pairs == [] || (cap > 0 && attempts >= cap) || canceled(attempts) || connect(pairs[0].0, pairs[0].1).Some? {
      k := 0;
    } else {
      var k1 := ProbeFindsFirst(ip, pairs[1..], attempts + 1, cap, canceled, connect);
      k := k1 + 1;
      assert k < |pairs| ==> pairs[k] == pairs[1..][k1];
      assert attempts + k == (attempts + 1) + k1;
      forall i | 0 <= i < k ensures FailedAt(pairs, attempts, canceled, connect, i) {
        if i > 0 {
          assert FailedAt(pairs[1..], attempts + 1, canceled, connect, i - 1);
          assert attempts + i == (attempts + 1) + (i - 1);
        }
      }
    }
  }

  // ---------------------------------------------------------------- the pool

  datatype Worker =
    | Idle                               // waiting for a job
    | Probing(i: nat)
    | Holding(i: nat, r: DiscoverResult) // waiting to hand its result over, or for the context
    | Exited

  /** What Connect and ConnectionInfo of a client made for one pair report, when a dial comes to this. */
  function Brings(dial: H.DialOutcome, rack: int, slot: int): Option<Negotiated> {
    match H.ConnectPair(dial, NEVER, rack, slot).1
    case Err(_) => None
    case Ok(s) => Some(Negotiated(s.setup.pduSize, s.remoteTSAP))
  }

  /** What a scan is asked for: the streamed addresses, the number of workers, the pairs, the attempt cap, and what each dial comes to. */
  datatype Task = Task(
    ips: seq<seq<byte>>, parallel: nat, pairs: seq<(int, int)>, cap: nat, dial: (nat, int, int) -> H.DialOutcome)
  {
    predicate Valid() {
      parallel >= 1
    }

    function Brought(i: nat, rack: int, slot: int): Option<Negotiated> {
      Brings(dial(i, rack, slot), rack, slot)
    }

    /** The uninterrupted probe of the i-th address. */
    function ProbeOf(i: nat): DiscoverResult
      requires i < |ips|
    {
      Probe(ips[i], pairs, 0, cap, _ => false, (rack, slot) => Brought(i, rack, slot))
    }
  }

  /** A probe of the i-th address that the context may stop before any attempt and make any attempt fail. */
  ghost predicate Interrupted(t: Task, i: nat, r: DiscoverResult, stop: nat -> bool, got: (int, int) -> Option<Negotiated>)
    requires i < |t.ips|
  {
    && (forall rack, slot :: got(rack, slot) == None || got(rack, slot) == t.Brought(i, rack, slot))
    && r == Probe(t.ips[i], t.pairs, 0, t.cap, stop, got)
  }

  /** Interrupted or not, a probe reports only what an attempt on its own address brought. */
  ghost predicate Truthful(t: Task, i: nat, r: DiscoverResult)
    requires i < |t.ips|
  {
    && r.ip == t.ips[i]
    && (r.isS7 ==> (r.rack, r.slot) in t.pairs && t.Brought(i, r.rack, r.slot) == Some(Negotiated(r.pduSize, r.tsap)))
  }

  lemma {:induction false} ProbeIsTruthful(ip: seq<byte>, pairs: seq<(int, int)>, attempts: nat, cap: nat,
                                           canceled: nat -> bool, connect: (int, int) -> Option<Negotiated>)
    ensures var r := Probe(ip, pairs, attempts, cap, canceled, connect);
            && r.ip == ip
            && (r.isS7 ==> (r.rack, r.slot) in pairs && connect(r.rack, r.slot) == Some(Negotiated(r.pduSize, r.tsap)))
    decreases |pairs|
  {
    if pairs != [] {
      ProbeIsTruthful(ip, pairs[1..], attempts + 1, cap, canceled, connect);
      assert forall x :: x in pairs[1..] ==> x in pairs;
    }
  }

  lemma InterruptedIsTruthful(t: Task, i: nat, r: DiscoverResult, stop: nat -> bool, got: (int, int) -> Option<Negotiated>)
    requires i < |t.ips| && Interrupted(t, i, r, stop, got)
    ensures Truthful(t, i, r)
  {
    ProbeIsTruthful(t.ips[i], t.pairs, 0, t.cap, stop, got);
  }

  lemma UninterruptedIsHonest(t: Task, i: nat, cancelled: bool)
    requires i < |t.ips|
    ensures Honest(t, i, t.ProbeOf(i), cancelled)
  {
    assert Interrupted(t, i, t.ProbeOf(i), _ => false, (rack, slot) => t.Brought(i, rack, slot));
  }

  datatype Pool = Pool(
    produced: nat,                     // addresses handed to the jobs channel so far
    jobs: seq<nat>, jobsClosed: bool,  // buffered channel, capacity 2 * parallel
    workers: seq<Worker>,
    out: seq<(nat, DiscoverResult)>, outClosed: bool, // buffered channel, capacity |ips|
    results: seq<Option<DiscoverResult>>,
    collected: seq<nat>, dropped: seq<nat>,           // what became of the indices that left the pool
    cancelled: bool, returned: bool)

  datatype Step =
    | Cancel
    | Produce
    | StopProducing
    | Take(w: nat)
    | FinishProbe(w: nat, r: DiscoverResult)
    | Push(w: nat)
    | Drop(w: nat)
    | Leave(w: nat)
    | CloseOut
    | Collect
    | Return

  function Init(t: Task): Pool {
    Pool(0, [], false, seq(t.parallel, _ => Idle), [], false, seq(|t.ips|, _ => None), [], [], false, false)
  }

  /** A result a probe of address i may bring: the whole probe's, or an interrupted one's if the context is done. */
  ghost predicate Honest(t: Task, i: nat, r: DiscoverResult, cancelled: bool) {
    && i < |t.ips| && (exists stop, got :: Interrupted(t, i, r, stop, got))
    && (!cancelled ==> r == t.ProbeOf(i))
  }

  ghost predicate Enabled(t: Task, p: Pool, s: Step) {
    match s
    case Cancel => !p.cancelled
    case Produce => !p.jobsClosed && p.produced < |t.ips| && |p.jobs| < 2 * t.parallel
    case StopProducing => !p.jobsClosed && (p.cancelled || p.produced == |t.ips|)
    case Take(w) => w < |p.workers| && p.workers[w].Idle? && p.jobs != []
    case FinishProbe(w, r) => w < |p.workers| && p.workers[w].Probing? && Honest(t, p.workers[w].i, r, p.cancelled)
    case Push(w) => w < |p.workers| && p.workers[w].Holding? && |p.out| < |t.ips|
    case Drop(w) => w < |p.workers| && p.workers[w].Holding? && p.cancelled
    case Leave(w) => w < |p.workers| && p.workers[w].Idle? && p.jobs == [] && p.jobsClosed
    case CloseOut => !p.outClosed && forall w :: 0 <= w < |p.workers| ==> p.workers[w].Exited?
    case Collect => p.out != [] && p.out[0].0 < |p.results|
    case Return => p.outClosed && p.out == [] && !p.returned
  }

  ghost function Apply(t: Task, p: Pool, s: Step): Pool
    requires Enabled(t, p, s)
  {
    match s
    case Cancel => p.(cancelled := true)
    case Produce => p.(produced := p.produced + 1, jobs := p.jobs + [p.produced])
    case StopProducing => p.(jobsClosed := true)
    case Take(w) => p.(workers := p.workers[w := Probing(p.jobs[0])], jobs := p.jobs[1..])
    case FinishProbe(w, r) => p.(workers := p.workers[w := Holding(p.workers[w].i, r)])
    case Push(w) => p.(workers := p.workers[w := Idle], out := p.out + [(p.workers[w].i, p.workers[w].r)])
    case Drop(w) => p.(workers := p.workers[w := Exited], dropped := p.dropped + [p.workers[w].i])
    case Leave(w) => p.(workers := p.workers[w := Exited])
    case CloseOut => p.(outClosed := true)
    case Collect =>
      p.(out := p.out[1..], results := p.results[p.out[0].0 := Some(p.out[0].1)], collected := p.collected + [p.out[0].0])
    case Return => p.(returned := true)
  }

  // ---------------------------------------------------------------- where every index is

  function One(b: bool): nat { if b then 1 else 0 }

  predicate Has(w: Worker, i: nat) {
    (w.Probing? || w.Holding?) && w.i == i
  }

  function InSeq(xs: seq<nat>, i: nat): nat {
    if xs == [] then 0 else One(xs[0] == i) + InSeq(xs[1..], i)
  }

  function InWorkers(ws: seq<Worker>, i: nat): nat {
    if ws == [] then 0 else One(Has(ws[0], i)) + InWorkers(ws[1..], i)
  }

  function InOut(out: seq<(nat, DiscoverResult)>, i: nat): nat {
    if out == [] then 0 else One(out[0].0 == i) + InOut(out[1..], i)
  }

  /** In how many places index i is: queued, in a worker, in `out`, collected, dropped. */
  function Places(p: Pool, i: nat): nat {
    InSeq(p.jobs, i) + InWorkers(p.workers, i) + InOut(p.out, i) + InSeq(p.collected, i) + InSeq(p.dropped, i)
  }

  /** Conservation: every index handed out so far is in exactly one place, and no other index is anywhere. */
  ghost predicate Conserved(p: Pool) {
    forall i: nat :: Places(p, i) == One(i < p.produced)
  }

  lemma {:induction false} AppendSeq(xs: seq<nat>, x: nat, i: nat)
    ensures InSeq(xs + [x], i) == InSeq(xs, i) + One(x == i)
    decreases |xs|
  {
    if xs == [] {
      assert xs + [x] == [x];
    } else {
      assert (xs + [x])[1..] == xs[1..] + [x];
      AppendSeq(xs[1..], x, i);
    }
  }

  lemma {:induction false} AppendOut(out: seq<(nat, DiscoverResult)>, x: (nat, DiscoverResult), i: nat)
    ensures InOut(out + [x], i) == InOut(out, i) + One(x.0 == i)
    decreases |out|
  {
    if out == [] {
      assert out + [x] == [x];
    } else {
      assert (out + [x])[1..] == out[1..] + [x];
      AppendOut(out[1..], x, i);
    }
  }

  lemma {:induction false} UpdateWorker(ws: seq<Worker>, k: nat, w: Worker, i: nat)
    requires k < |ws|
    ensures InWorkers(ws[k := w], i) + One(Has(ws[k], i)) == InWorkers(ws, i) + One(Has(w, i))
    decreases |ws|
  {
    if k > 0 {
      assert ws[k := w][1..] == ws[1..][k - 1 := w];
      UpdateWorker(ws[1..], k - 1, w, i);
    } else {
      assert ws[0 := w][1..] == ws[1..];
    }
  }

  lemma {:induction false} Present(xs: seq<nat>, i: nat)
    ensures InSeq(xs, i) > 0 <==> i in xs
    decreases |xs|
  {
    if xs != [] {
      Present(xs[1..], i);
      assert i in xs <==> i == xs[0] || i in xs[1..];
    }
  }

  lemma PlacesStep(t: Task, p: Pool, s: Step, i: nat)
    requires Enabled(t, p, s)
    ensures Places(Apply(t, p, s), i) == Places(p, i) + One(s == Produce && i == p.produced)
  {
    hide Honest;
    match s
    case Produce => AppendSeq(p.jobs, p.produced, i);
    case Take(w) => UpdateWorker(p.workers, w, Probing(p.jobs[0]), i);
    case FinishProbe(w, r) => UpdateWorker(p.workers, w, Holding(p.workers[w].i, r), i);
    case Push(w) =>
      UpdateWorker(p.workers, w, Idle, i);
      AppendOut(p.out, (p.workers[w].i, p.workers[w].r), i);
    case Drop(w) =>
      UpdateWorker(p.workers, w, Exited, i);
      AppendSeq(p.dropped, p.workers[w].i, i);
    case Leave(w) => UpdateWorker(p.workers, w, Exited, i);
    case Collect => AppendSeq(p.collected, p.out[0].0, i);
    case _ =>
  }

  lemma ConservedStep(t: Task, p: Pool, s: Step)
    requires Conserved(p) && Enabled(t, p, s)
    ensures Conserved(Apply(t, p, s))
  {
    hide Honest, Places;
    forall i: nat ensures Places(Apply(t, p, s), i) == One(i < Apply(t, p, s).produced) {
      PlacesStep(t, p, s, i);
    }
  }

  // ---------------------------------------------------------------- the invariant

  function Busy(ws: seq<Worker>): nat {
    if ws == [] then 0 else One(ws[0].Probing? || ws[0].Holding?) + Busy(ws[1..])
  }

  lemma {:induction false} UpdateBusy(ws: seq<Worker>, k: nat, w: Worker)
    requires k < |ws|
    ensures Busy(ws[k := w]) + One(ws[k].Probing? || ws[k].Holding?) == Busy(ws) + One(w.Probing? || w.Holding?)
    decreases |ws|
  {
    if k > 0 {
      assert ws[k := w][1..] == ws[1..][k - 1 := w];
      UpdateBusy(ws[1..], k - 1, w);
    } else {
      assert ws[0 := w][1..] == ws[1..];
    }
  }

  ghost predicate Shape(t: Task, p: Pool) {
    && |p.workers| == t.parallel && |p.results| == |t.ips|
    && p.produced == |p.jobs| + Busy(p.workers) + |p.out| + |p.collected| + |p.dropped| <= |t.ips|
    && (p.jobsClosed ==> p.cancelled || p.produced == |t.ips|)
    && (!p.cancelled ==> p.dropped == [])
    && (forall w :: 0 <= w < |p.workers| && p.workers[w].Exited? ==> p.cancelled || (p.jobsClosed && p.jobs == []))
    && (p.outClosed ==> forall w :: 0 <= w < |p.workers| ==> p.workers[w].Exited?)
    && (p.returned ==> p.outClosed && p.out == [])
  }

  /** Every result anywhere is honest, and result slots are filled exactly by collection. */
  ghost predicate ResultsHonest(t: Task, p: Pool) {
    && |p.results| == |t.ips|
    && (forall w :: 0 <= w < |p.workers| && p.workers[w].Holding? ==> Honest(t, p.workers[w].i, p.workers[w].r, p.cancelled))
    && (forall k :: 0 <= k < |p.out| ==> Honest(t, p.out[k].0, p.out[k].1, p.cancelled))
    && (forall i :: 0 <= i < |p.results| && p.results[i].Some? ==> Honest(t, i, p.results[i].value, p.cancelled))
    && (forall i :: 0 <= i < |p.results| ==> (p.results[i].Some? <==> i in p.collected))
  }

  ghost predicate Inv(t: Task, p: Pool) {
    t.Valid() && Shape(t, p) && ResultsHonest(t, p) && Conserved(p)
  }

  lemma InitHolds(t: Task)
    requires t.Valid()
    ensures Inv(t, Init(t))
  {
    NoneBusy(Init(t).workers);
  }

  lemma {:induction false} NoneBusy(ws: seq<Worker>)
    requires forall w :: 0 <= w < |ws| ==> ws[w].Idle? || ws[w].Exited?
    ensures Busy(ws) == 0 && forall i: nat :: InWorkers(ws, i) == 0
    decreases |ws|
  {
    if ws != [] {
      NoneBusy(ws[1..]);
    }
  }

  lemma InvStep(t: Task, p: Pool, s: Step)
    requires Inv(t, p) && Enabled(t, p, s)
    ensures Inv(t, Apply(t, p, s))
  {
    ConservedStep(t, p, s);
    ShapeStep(t, p, s);
    ResultsStep(t, p, s);
  }

  lemma ShapeStep(t: Task, p: Pool, s: Step)
    requires Shape(t, p) && Enabled(t, p, s)
    ensures Shape(t, Apply(t, p, s))
  {
    hide Honest;
    match s
    case Take(w) => UpdateBusy(p.workers, w, Probing(p.jobs[0]));
    case FinishProbe(w, r) => UpdateBusy(p.workers, w, Holding(p.workers[w].i, r));
    case Push(w) => UpdateBusy(p.workers, w, Idle);
    case Drop(w) => UpdateBusy(p.workers, w, Exited);
    case Leave(w) => UpdateBusy(p.workers, w, Exited);
    case _ =>
  }

  lemma HonestStays(t: Task)
    ensures forall i, r :: Honest(t, i, r, false) ==> Honest(t, i, r, true)
  {
  }

  lemma ResultsStep(t: Task, p: Pool, s: Step)
    requires ResultsHonest(t, p) && Enabled(t, p, s)
    ensures ResultsHonest(t, Apply(t, p, s))
  {
    HonestStays(t);
    hide Honest;
    var q := Apply(t, p, s);
    if s.Collect? {
      assert p.out == [p.out[0]] + p.out[1..];
      forall i | 0 <= i < |q.results| ensures q.results[i].Some? <==> i in q.collected {
        assert i in q.collected <==> i in p.collected || i == p.out[0].0;
      }
    }
  }

  lemma InOnePlace(t: Task, p: Pool, i: nat)
    requires Inv(t, p)
    ensures Places(p, i) == if i < p.produced then 1 else 0
    ensures Places(p, i) > 0 ==> i < |t.ips|
  {
  }

  // ---------------------------------------------------------------- no deadlock, and every run ends

  lemma {:induction false} InWorker(ws: seq<Worker>, w: nat)
    requires w < |ws| && (ws[w].Probing? || ws[w].Holding?)
    ensures InWorkers(ws, ws[w].i) > 0 && Busy(ws) > 0
    decreases |ws|
  {
    if w > 0 {
      InWorker(ws[1..], w - 1);
    }
  }

  /** Until Discover has returned, some goroutine can move without the context being cancelled. */
  lemma NoDeadlock(t: Task, p: Pool) returns (s: Step)
    requires Inv(t, p) && !p.returned
    ensures Enabled(t, p, s) && s != Cancel
  {
    if p.out != [] {
      assert Honest(t, p.out[0].0, p.out[0].1, p.cancelled);
      s := Collect;
    } else if w :| 0 <= w < |p.workers| && p.workers[w].Holding? {
      InWorker(p.workers, w);  // so the output channel cannot be full
      s := Push(w);
    } else if w :| 0 <= w < |p.workers| && p.workers[w].Probing? {
      var i := p.workers[w].i;
      InWorker(p.workers, w);
      InOnePlace(t, p, i);
      UninterruptedIsHonest(t, i, p.cancelled);
      s := FinishProbe(w, t.ProbeOf(i));
    } else if w :| 0 <= w < |p.workers| && p.workers[w].Idle? {
      s := if p.jobs != [] then Take(w) else if p.jobsClosed then Leave(w)
           else if p.produced < |t.ips| then Produce else StopProducing;
    } else {
      s := if p.outClosed then Return else CloseOut;
    }
  }

  function Weight(w: Worker): nat {
    match w
    case Exited => 0
    case Idle => 1
    case Holding(_, _) => 3
    case Probing(_) => 4
  }

  function Weights(ws: seq<Worker>): nat {
    if ws == [] then 0 else Weight(ws[0]) + Weights(ws[1..])
  }

  lemma {:induction false} UpdateWeights(ws: seq<Worker>, k: nat, w: Worker)
    requires k < |ws|
    ensures Weights(ws[k := w]) + Weight(ws[k]) == Weights(ws) + Weight(w)
    decreases |ws|
  {
    if k > 0 {
      assert ws[k := w][1..] == ws[1..][k - 1 := w];
      UpdateWeights(ws[1..], k - 1, w);
    } else {
      assert ws[0 := w][1..] == ws[1..];
    }
  }

  /** What is left to do. */
  ghost function Rank(t: Task, p: Pool): nat
    requires p.produced <= |t.ips|
  {
    5 * (|t.ips| - p.produced) + 4 * |p.jobs| + Weights(p.workers) + |p.out|
    + Goroutines.Undone(p.jobsClosed) + Goroutines.Undone(p.outClosed) + Goroutines.Undone(p.returned) + Goroutines.Undone(p.cancelled)
  }

  lemma RankFalls(t: Task, p: Pool, s: Step)
    requires Inv(t, p) && Enabled(t, p, s)
    ensures p.produced <= |t.ips| && Apply(t, p, s).produced <= |t.ips|
    ensures Rank(t, Apply(t, p, s)) < Rank(t, p)
  {
    hide Honest, Conserved, ResultsHonest;
    match s
    case Take(w) => UpdateWeights(p.workers, w, Probing(p.jobs[0]));
    case FinishProbe(w, r) => UpdateWeights(p.workers, w, Holding(p.workers[w].i, r));
    case Push(w) => UpdateWeights(p.workers, w, Idle);
    case Drop(w) => UpdateWeights(p.workers, w, Exited);
    case Leave(w) => UpdateWeights(p.workers, w, Exited);
    case _ =>
  }

  // ---------------------------------------------------------------- whole runs

  ghost predicate Run(t: Task, p: Pool, steps: seq<Step>, q: Pool)
    decreases |steps|
  {
    if steps == [] then p == q
    else Enabled(t, p, steps[0]) && Run(t, Apply(t, p, steps[0]), steps[1..], q)
  }

  lemma {:induction false} RunKeeps(t: Task, p: Pool, steps: seq<Step>, q: Pool)
    requires Inv(t, p) && Run(t, p, steps, q)
    ensures Inv(t, q) && |steps| + Rank(t, q) <= Rank(t, p)
    decreases |steps|
  {
    hide Inv, Enabled, Apply, Rank;
    if steps != [] {
      InvStep(t, p, steps[0]);
      RankFalls(t, p, steps[0]);
      RunKeeps(t, Apply(t, p, steps[0]), steps[1..], q);
    }
  }

  lemma ReturnedUncancelled(t: Task, p: Pool, i: nat)
    requires Inv(t, p) && p.returned && !p.cancelled && i < |t.ips|
    ensures p.results[i] == Some(t.ProbeOf(i))
  {
    assert p.workers[0].Exited?;
    NoneBusy(p.workers);
    assert InWorkers(p.workers, i) == 0;
    InOnePlace(t, p, i);
    Present(p.collected, i);
  }

  /**
   At every moment of every run, an index is in exactly one place (the jobs channel, a worker, the output
   channel, collected, dropped) once it has been produced, and nowhere before; all are below the number of addresses.
   */
  lemma EachIndexOnce(t: Task, steps: seq<Step>, q: Pool, i: nat)
    requires t.Valid() && Run(t, Init(t), steps, q)
    ensures InSeq(q.jobs, i) + InWorkers(q.workers, i) + InOut(q.out, i) + InSeq(q.collected, i) + InSeq(q.dropped, i)
         == if i < q.produced then 1 else 0
    ensures q.produced <= |t.ips| && |q.workers| == t.parallel
  {
    InitHolds(t);
    RunKeeps(t, Init(t), steps, q);
    InOnePlace(t, q, i);
  }

  /**
   The pool refines the sequential scan. Every schedule from the start is at most `bound` steps long;
   one that cannot go on has returned; if the context was not cancelled, entry i is then the probe of
   the i-th address, and otherwise each entry is empty or an interrupted probe of its own address, which
   reports no pair that did not connect.
   */
  lemma DiscoverRefinesScan(t: Task, steps: seq<Step>, q: Pool)
    requires t.Valid() && Run(t, Init(t), steps, q)
    ensures |steps| <= Rank(t, Init(t))
    ensures (forall s :: Enabled(t, q, s) ==> s == Cancel) ==> q.returned
    ensures q.returned && !q.cancelled ==> |q.results| == |t.ips| && forall i :: 0 <= i < |t.ips| ==> q.results[i] == Some(t.ProbeOf(i))
    ensures |q.results| == |t.ips|
    ensures forall i :: 0 <= i < |q.results| && q.results[i].Some? ==>
              Honest(t, i, q.results[i].value, q.cancelled) && Truthful(t, i, q.results[i].value)
  {
    InitHolds(t);
    RunKeeps(t, Init(t), steps, q);
    forall i | 0 <= i < |q.results| && q.results[i].Some? ensures Truthful(t, i, q.results[i].value) {
      assert Honest(t, i, q.results[i].value, q.cancelled);
      var stop, got :| Interrupted(t, i, q.results[i].value, stop, got);
      InterruptedIsTruthful(t, i, q.results[i].value, stop, got);
    }
    if !q.returned {
      var s := NoDeadlock(t, q);
    } else if !q.cancelled {
      forall i | 0 <= i < |t.ips| ensures q.results[i] == Some(t.ProbeOf(i)) {
        ReturnedUncancelled(t, q, i);
      }
    }
  }

  /** For a prefix's hosts: entry i of an uncancelled scan is the probe of network address plus i (plus 1 past the skipped first address). */
  lemma ScanCoversThePrefix(t: Task, steps: seq<Step>, q: Pool, p: Cidr.Parsed, i: nat)
    requires t.Valid() && Run(t, Init(t), steps, q) && q.returned && !q.cancelled
    requires p.V4? && p.Valid() && Cidr.StreamError(p).None? && Cidr.Network(p) + Cidr.Size(p) <= 0x1_0000_0000
    requires t.ips == Cidr.Hosts(p) && i < |t.ips|
    ensures |q.results| == |t.ips| && q.results[i].Some? && Cidr.Contains(p, q.results[i].value.ip)
    ensures Cidr.ValueOf(q.results[i].value.ip) == Cidr.Network(p) + i + (if Cidr.Size(p) > 2 then 1 else 0)
  {
    DiscoverRefinesScan(t, steps, q);
    Cidr.HostsAreConsecutive(p, i);
  }
}
