/**
 A host whose connections are selected by the TSAP they ask for: at each rack and slot of a set there is a CPU of its own,
 with its own memory. What discovery, probing, auto-connect and comparison reads report about it.
 */
module Host {
  import opened Bytes
  import opened S7
  import opened Link
  import opened Exchange
  import opened Plc
  import opened EndToEnd
  import H = Handshake
  import T = Tsap
  import D = Discover
  import RP = RackSlotProbe
  import PO = ProbeOne
  import CR = CompareRead
  import RW = ReadWrite
  import SD = ScanOnDevice
  import RAW = ReadAfterWrite

  datatype Cpu = Cpu(cfg: Config, mem: Memory)
  type Cpus = map<(int, int), Cpu>

  /** The pair a TSAP names: connection type 3, then three bits of rack and five of slot. */
  function Selected(tsap: u16): Option<(int, int)> {
    if tsap / 0x100 == 3 then Some((tsap % 0x100 / 32, tsap % 0x100 % 32)) else None
  }

  predicate Selects(cpus: Cpus, h: seq<Tpdu>) {
    h != [] && h[0].CR? && Selected(h[0].remote).Some? && Selected(h[0].remote).value in cpus
  }

  /** A connection whose first frame selects a CPU is that CPU's; any other is refused. */
  function Answered(cpus: Cpus, h: seq<Tpdu>): Reply {
    if Selects(cpus, h) then var cpu := cpus[Selected(h[0].remote).value]; Answer(cpu.cfg, cpu.mem, h)
    else Frame(Other)
  }

  ghost predicate IsHost(serve: seq<Tpdu> -> Reply, cpus: Cpus) {
    forall h: seq<Tpdu> :: serve(h) == Answered(cpus, h)
  }

  /** There is a CPU at this pair, and a TSAP can name it. */
  predicate Installed(cpus: Cpus, pair: (int, int)) {
    pair in cpus && 0 <= pair.0 <= 7 && 0 <= pair.1 <= 31
  }

  // ---------------------------------------------------------------- connecting to it

  /** TSAPs given outright are used as they are; the others name the pair, and exist exactly for pairs that can be named. */
  lemma TSAPsNameThePair(o: H.Options, rack: int, slot: int)
    ensures o.useExplicit ==> H.TSAPs(o, rack, slot) == Ok((o.localTSAP, o.remoteTSAP))
    ensures !o.useExplicit ==> (H.TSAPs(o, rack, slot).Ok? <==> 0 <= rack <= 7 && 0 <= slot <= 31)
    ensures !o.useExplicit && H.TSAPs(o, rack, slot).Ok? ==>
              var (local, remote) := H.TSAPs(o, rack, slot).value; local == 0x0100 && Selected(remote) == Some((rack, slot))
  {
    LocalIsFixed();
    RemoteNamesThePair(rack, slot);
    hide T.BuildTSAP, Selected;
  }

  lemma LocalIsFixed()
    ensures T.BuildTSAP(1, 0, 0) == Ok(0x0100)
  {
  }

  lemma RemoteNamesThePair(rack: int, slot: int)
    ensures T.BuildTSAP(3, rack, slot).Ok? <==> 0 <= rack <= 7 && 0 <= slot <= 31
    ensures T.BuildTSAP(3, rack, slot).Ok? ==> Selected(T.BuildTSAP(3, rack, slot).value) == Some((rack, slot))
  {
    T.TsapRoundTrip(3, rack, slot);
    if 0 <= rack <= 7 && 0 <= slot <= 31 {
      LowByte(T.BuildTSAP(3, rack, slot).value);
    }
    hide T.BuildTSAP;
  }

  lemma LowByte(tsap: u16)
    ensures tsap % 0x100 % 32 == tsap % 32
  {
    var q, low := tsap / 0x100, tsap % 0x100;
    assert tsap == 32 * (8 * q) + low;
  }

  lemma HostEchoes(serve: seq<Tpdu> -> Reply, cpus: Cpus)
    requires IsHost(serve, cpus)
    ensures Echoes(serve)
  {
    hide MemoryAfter, Act;
    forall h: seq<Tpdu>, ref: u16 | h != [] && Carries(h[|h| - 1], ref) ensures EchoesRef(serve(h), ref) {
      assert serve(h) == Answered(cpus, h);
      if Selects(cpus, h) {
        var cpu := cpus[Selected(h[0].remote).value];
        ActEchoes(cpu.cfg, MemoryAfter(cpu.cfg, cpu.mem, h[..|h| - 1]), h[|h| - 1], ref);
      }
    }
  }

  /** With these options the pair's TSAPs name the pair, if they can be built. */
  predicate Addresses(o: H.Options, rack: int, slot: int) {
    H.TSAPs(o, rack, slot).Ok? ==> Selected(H.TSAPs(o, rack, slot).value.1) == Some((rack, slot))
  }

  lemma HostLeadsToCpu(serve: seq<Tpdu> -> Reply, cpus: Cpus, o: H.Options, rack: int, slot: int)
    requires IsHost(serve, cpus) && Addresses(o, rack, slot) && (rack, slot) in cpus
    ensures LeadsTo(serve, cpus[(rack, slot)].cfg, cpus[(rack, slot)].mem, o, rack, slot)
  {
    hide Answer, H.TSAPs;
    HostEchoes(serve, cpus);
    if H.TSAPs(o, rack, slot).Ok? {
      var (local, remote) := H.TSAPs(o, rack, slot).value;
      var cpu, hello := cpus[(rack, slot)], [CR(local, remote)];
      forall h: seq<Tpdu> | hello <= h ensures serve(h) == Answer(cpu.cfg, cpu.mem, h) {
        assert h[0] == hello[0];
      }
    }
  }

  /** The first two steps of the connection are delivered. */
  ghost predicate Reachable(env: Env, ctx: nat -> Option<CtxError>, checks: nat) {
    env.io(0) == Delivered && env.io(1) == Delivered && ctx(checks) == None && ctx(checks + 1) == None
  }

  /**
   Every session opened with a pair's TSAPs is one with the CPU at that pair, and has its PDU size; one is opened
   whenever the two handshake steps are delivered and the CPU is there.
   */
  lemma ConnectsToTheCpu(o: H.Options, env: Env, cpus: Cpus, ctx: nat -> Option<CtxError>, checks: nat, rack: int, slot: int)
    requires IsHost(env.serve, cpus) && Addresses(o, rack, slot)
    ensures var r := H.Attempt(o, H.Accepted(env), ctx, checks, rack, slot).1;
            && (r.Ok? ==> (rack, slot) in cpus && H.TSAPs(o, rack, slot).Ok? && r.value.setup == GrantedTo(cpus[(rack, slot)].cfg, o)
                          && (r.value.localTSAP, r.value.remoteTSAP) == H.TSAPs(o, rack, slot).value)
            && (Reachable(env, ctx, checks) && H.TSAPs(o, rack, slot).Ok? && (rack, slot) in cpus ==> r.Ok?)
  {
    hide H.Attempt, H.TSAPs, Answer, GrantedTo;
    if (rack, slot) in cpus {
      var cpu := cpus[(rack, slot)];
      HostLeadsToCpu(env.serve, cpus, o, rack, slot);
      SessionIsQuiet(o, env, cpu.cfg, cpu.mem, ctx, checks, rack, slot, 0);
      H.SessionIsNegotiated(o, H.Accepted(env), ctx, checks, rack, slot);
      if Reachable(env, ctx, checks) && H.TSAPs(o, rack, slot).Ok? {
        var s := SessionOpens(o, env, cpu.cfg, cpu.mem, ctx, checks, rack, slot);
      }
    } else {
      NoCpuRefuses(o, env, cpus, ctx, checks, rack, slot);
    }
  }

  lemma NoCpuRefuses(o: H.Options, env: Env, cpus: Cpus, ctx: nat -> Option<CtxError>, checks: nat, rack: int, slot: int)
    requires IsHost(env.serve, cpus) && Addresses(o, rack, slot) && (rack, slot) !in cpus
    ensures H.Attempt(o, H.Accepted(env), ctx, checks, rack, slot).1.Err?
    ensures Reachable(env, ctx, checks) && H.TSAPs(o, rack, slot).Ok? ==>
              H.Attempt(o, H.Accepted(env), ctx, checks, rack, slot).1 == Err(H.UnexpectedTPDU)
  {
    hide H.TSAPs, Answer, H.S7Setup;
    if H.TSAPs(o, rack, slot).Ok? {
      var (local, remote) := H.TSAPs(o, rack, slot).value;
      var t, l := CR(local, remote), Fresh(env);
      assert l.sent + [t] == [t] && [t][..1] == [t];
      assert env.serve([t]) == Frame(Other);
    }
  }

  function Smallest(a: nat, b: nat): nat {
    if a < b then a else b
  }

  /** A client made for one pair: it connects exactly if there is a CPU, and reports the pair's TSAP and the smaller PDU size. */
  lemma PairConnects(env: Env, cpus: Cpus, ctx: nat -> Option<CtxError>, rack: int, slot: int)
    requires IsHost(env.serve, cpus)
    ensures var r := H.ConnectPair(H.Accepted(env), ctx, rack, slot).1;
            && (r.Ok? ==> Installed(cpus, (rack, slot)) && Selected(r.value.remoteTSAP) == Some((rack, slot))
                          && r.value.setup.pduSize == Smallest(480, cpus[(rack, slot)].cfg.maxPDU)
                          && r.value.setup == H.Setup(1, 1, Smallest(480, cpus[(rack, slot)].cfg.maxPDU)))
            && (Reachable(env, ctx, 0) && Installed(cpus, (rack, slot)) ==> r.Ok?)
  {
    hide H.Attempt, H.TSAPs, Selected, IsHost;
    var o := H.PairOptions(rack, slot);
    TSAPsNameThePair(o, rack, slot);
    ConnectsToTheCpu(o, env, cpus, ctx, 0, rack, slot);
  }

  // ---------------------------------------------------------------- discovery

  /**
   What a reported entry says, whatever device it was: a dial of its own address brought a connection whose first frame
   asked for the TSAP reported, which names the pair reported; a CC answered it, and the setup reply named the PDU size.
   */
  ghost predicate Reported(dial: H.DialOutcome, r: D.DiscoverResult, sent: seq<Tpdu>, setup: H.Setup) {
    && dial.Accepted? && |sent| == 2 && sent[0] == CR(0x0100, r.tsap) && Selected(r.tsap) == Some((r.rack, r.slot))
    && dial.env.serve(sent[..1]) == Frame(CC)
    && H.ReadSetup(dial.env.serve(sent), 1) == Ok(setup) && r.pduSize == setup.pduSize
  }

  lemma TruthfulReports(t: D.Task, i: nat, r: D.DiscoverResult) returns (sent: seq<Tpdu>, setup: H.Setup)
    requires i < |t.ips| && D.Truthful(t, i, r) && r.isS7
    ensures r.ip == t.ips[i] && (r.rack, r.slot) in t.pairs && Reported(t.dial(i, r.rack, r.slot), r, sent, setup)
  {
    hide H.ReadSetup, H.TSAPs, H.Attempt, Selected;
    var o, dial := H.PairOptions(r.rack, r.slot), t.dial(i, r.rack, r.slot);
    H.SessionIsNegotiated(o, dial, NEVER, 0, r.rack, r.slot);
    TSAPsNameThePair(o, r.rack, r.slot);
    var session := H.ConnectPair(dial, NEVER, r.rack, r.slot).1.value;
    sent, setup := session.link.sent, session.setup;
    SessionsDevice(o, dial, r.rack, r.slot);
    assert sent[..2] == sent;
  }

  lemma SessionsDevice(o: H.Options, dial: H.DialOutcome, rack: int, slot: int)
    ensures var r := H.Attempt(o, dial, NEVER, 0, rack, slot).1; r.Ok? ==> dial.Accepted? && r.value.link.env == dial.env
  {
  }

  /** Every dial of the address reaches the host, over a link that delivers the handshake. */
  ghost predicate HostAt(t: D.Task, i: nat, cpus: Cpus) {
    forall rack, slot :: ReachesHost(t.dial(i, rack, slot), cpus)
  }

  ghost predicate ReachesHost(dial: H.DialOutcome, cpus: Cpus) {
    dial.Accepted? && IsHost(dial.env.serve, cpus) && dial.env.io(0) == Delivered && dial.env.io(1) == Delivered
  }

  lemma BroughtFromHost(t: D.Task, i: nat, cpus: Cpus, rack: int, slot: int)
    requires HostAt(t, i, cpus)
    ensures var n := t.Brought(i, rack, slot);
            && (n.Some? <==> Installed(cpus, (rack, slot)))
            && (n.Some? ==> Selected(n.value.tsap) == Some((rack, slot))
                            && n.value.pduSize == Smallest(480, cpus[(rack, slot)].cfg.maxPDU))
  {
    hide H.ConnectPair, Selected, IsHost;
    assert ReachesHost(t.dial(i, rack, slot), cpus);
    PairConnects(t.dial(i, rack, slot).env, cpus, NEVER, rack, slot);
  }

  /**
   The entry of such a host in a scan that was not cancelled: the first pair in the scan's order, within the attempt cap,
   at which there is a CPU, with its TSAP and PDU size; and nothing exactly if there is none.
   */
  lemma ScanFindsTheFirstCpu(t: D.Task, steps: seq<D.Step>, q: D.Pool, i: nat, cpus: Cpus) returns (k: nat)
    requires t.Valid() && D.Run(t, D.Init(t), steps, q) && q.returned && !q.cancelled && i < |t.ips| && HostAt(t, i, cpus)
    ensures |q.results| == |t.ips| && q.results[i].Some?
    ensures k <= |t.pairs| && (t.cap > 0 ==> k <= t.cap) && forall j :: 0 <= j < k ==> !Installed(cpus, t.pairs[j])
    ensures var r, within := q.results[i].value, k < |t.pairs| && (t.cap > 0 ==> k < t.cap);
            && r.ip == t.ips[i] && (r.isS7 <==> within)
            && (within ==> (r.rack, r.slot) == t.pairs[k] && Installed(cpus, t.pairs[k])
                           && Selected(r.tsap) == Some(t.pairs[k]) && r.pduSize == Smallest(480, cpus[t.pairs[k]].cfg.maxPDU))
            && (r.abandoned == D.MaxAttempts <==> k < |t.pairs| && !within)
  {
    D.DiscoverRefinesScan(t, steps, q);
    hide D.Run, D.Enabled, D.Apply, D.Inv, HostAt, D.Truthful, D.Honest, D.Rank;
    k := D.ProbeFindsFirst(t.ips[i], t.pairs, 0, t.cap, _ => false, (rack, slot) => t.Brought(i, rack, slot));
    forall j | 0 <= j < k ensures !Installed(cpus, t.pairs[j]) {
      assert D.FailedAt(t.pairs, 0, _ => false, (rack, slot) => t.Brought(i, rack, slot), j);
      BroughtFromHost(t, i, cpus, t.pairs[j].0, t.pairs[j].1);
    }
    var r := q.results[i].value;
    if r.isS7 {
      BroughtFromHost(t, i, cpus, r.rack, r.slot);
    }
  }

  // ---------------------------------------------------------------- the rack/slot probe

  /** A probe that is not strict and derives its remote TSAP accepts the pair exactly if there is a CPU, with its PDU size. */
  lemma ProbeOfHost(env: Env, cpus: Cpus, req: PO.Request, rack: int, slot: int)
    requires ReachesHost(H.Accepted(env), cpus) && !req.strict && req.remoteTSAP.None?
    ensures var r := PO.Probed(H.Accepted(env), req, NEVER, rack, slot);
            && (r.c.status == PO.SetupOnly <==> Installed(cpus, (rack, slot)))
            && (PO.CountsAsValid(false, r.c) <==> Installed(cpus, (rack, slot)))
            && (Installed(cpus, (rack, slot)) ==>
                  r.c.pduSize == Smallest(480, cpus[(rack, slot)].cfg.maxPDU) && Selected(r.remote) == Some((rack, slot)))
            && (!Installed(cpus, (rack, slot)) ==>
                  r.c.status == if 0 <= rack <= 7 && 0 <= slot <= 31 then PO.TCPOnly else PO.Rejected)
  {
    hide H.Attempt, H.TSAPs, T.BuildTSAP, Selected, IsHost, PO.RunFollowUp, PO.Probed;
    NotStrict(H.Accepted(env), req, rack, slot);
    var o := PO.ConnectOptions(req, rack, slot);
    PO.ProbeAgreesWithConnect(H.Accepted(env), req, NEVER, rack, slot);
    RemoteNamesThePair(rack, slot);
    TSAPsNameThePair(o, rack, slot);
    if 0 <= rack <= 7 && 0 <= slot <= 31 {
      ConnectsToTheCpu(o, env, cpus, NEVER, 0, rack, slot);
      if (rack, slot) !in cpus {
        NoCpuIsTCPOnly(env, cpus, req, rack, slot);
      }
    }
  }

  lemma NotStrict(dial: H.DialOutcome, req: PO.Request, rack: int, slot: int)
    requires !req.strict && dial.Accepted?
    ensures var status := PO.Probed(dial, req, NEVER, rack, slot).c.status;
            && (PO.SetupDone(status) <==> status == PO.SetupOnly)
            && (PO.RemoteTSAP(req, rack, slot).Err? ==> status == PO.Rejected)
  {
    hide H.COTPConnect, H.S7Setup;
  }

  /** The TSAPs a probe asks for and reports: the caller's own where given, else 0x0100 and the one that names the pair. */
  lemma ProbeTSAPs(env: Env, req: PO.Request, ctx: nat -> Option<CtxError>, rack: int, slot: int)
    ensures PO.LocalTSAP(req) == req.localTSAP.GetOr(0x0100)
    ensures match req.remoteTSAP
            case Some(tsap) => PO.RemoteTSAP(req, rack, slot) == Ok(tsap)
            case None =>
              && (PO.RemoteTSAP(req, rack, slot).Ok? <==> 0 <= rack <= 7 && 0 <= slot <= 31)
              && (PO.RemoteTSAP(req, rack, slot).Ok? ==> Selected(PO.RemoteTSAP(req, rack, slot).value) == Some((rack, slot)))
    ensures PO.RemoteTSAP(req, rack, slot).Ok? ==>
              var r := PO.Probed(H.Accepted(env), req, ctx, rack, slot);
              (r.local, r.remote) == (PO.LocalTSAP(req), PO.RemoteTSAP(req, rack, slot).value)
  {
    LocalIsFixed();
    RemoteNamesThePair(rack, slot);
    hide H.COTPConnect, H.S7Setup, PO.RunFollowUp, T.BuildTSAP, Selected;
  }

  lemma NoCpuIsTCPOnly(env: Env, cpus: Cpus, req: PO.Request, rack: int, slot: int)
    requires ReachesHost(H.Accepted(env), cpus) && req.remoteTSAP.None?
    requires 0 <= rack <= 7 && 0 <= slot <= 31 && (rack, slot) !in cpus
    ensures PO.Probed(H.Accepted(env), req, NEVER, rack, slot).c.status == PO.TCPOnly
  {
    hide H.S7Setup, PO.RunFollowUp, Answer;
    RemoteNamesThePair(rack, slot);
    var t, l := CR(PO.LocalTSAP(req), PO.RemoteTSAP(req, rack, slot).value), Fresh(env);
    assert l.sent + [t] == [t] && [t][..1] == [t];
    assert env.serve([t]) == Frame(Other);
  }

  lemma JobOnHost(t: RP.Task, k: nat, cpus: Cpus)
    requires k < |t.jobs| && ReachesHost(t.dial(k), cpus) && !t.req.strict && t.req.remoteTSAP.None?
    ensures var c := t.ProbeOf(k);
            && (PO.CountsAsValid(false, c) <==> Installed(cpus, t.jobs[k]))
            && (Installed(cpus, t.jobs[k]) ==> (c.rack, c.slot) == t.jobs[k] && c.pduSize == Smallest(480, cpus[t.jobs[k]].cfg.maxPDU))
  {
    hide PO.Probed, IsHost;
    ProbeOfHost(t.dial(k).env, cpus, t.req, t.jobs[k].0, t.jobs[k].1);
    PO.ProbeAgreesWithConnect(t.dial(k), t.req, NEVER, t.jobs[k].0, t.jobs[k].1);
  }

  /** So the valid list of an uncancelled run is, in order, the tried pairs at which there is a CPU. */
  lemma ValidAreTheCpus(t: RP.Task, steps: seq<RP.Step>, f: RP.Fan, cpus: Cpus) returns (at: seq<nat>)
    requires t.Valid() && RP.Run(t, RP.Init(t), steps, f) && f.returned && !f.cancelled
    requires !t.req.strict && t.req.remoteTSAP.None? && forall k :: ReachesHost(t.dial(k), cpus)
    ensures RP.ValidAt(f.candidates, false, at)
    ensures forall k :: 0 <= k < |t.jobs| ==> (k in at <==> k < t.maxJobs && Installed(cpus, t.jobs[k]))
    ensures |f.candidates| == |t.jobs| && forall k :: 0 <= k < |t.jobs| && k in at ==>
              var c := f.candidates[k];
              Installed(cpus, t.jobs[k]) && (c.rack, c.slot) == t.jobs[k] && c.pduSize == Smallest(480, cpus[t.jobs[k]].cfg.maxPDU)
  {
    RP.ProbeFanOut(t, steps, f);
    at := RP.ValidMatchesCounters(f.candidates, false);
    hide RP.Run, RP.Inv, RP.Enabled, RP.ValidOnes, PO.Probed, RP.Honest, ReachesHost;
    forall k | 0 <= k < |t.jobs|
      ensures k in at <==> k < t.maxJobs && Installed(cpus, t.jobs[k])
      ensures k in at ==> Installed(cpus, t.jobs[k]) && (f.candidates[k].rack, f.candidates[k].slot) == t.jobs[k]
                          && f.candidates[k].pduSize == Smallest(480, cpus[t.jobs[k]].cfg.maxPDU)
    {
      assert k in at <==> PO.CountsAsValid(false, f.candidates[k]);
      if k < t.maxJobs {
        assert ReachesHost(t.dial(k), cpus);
        JobOnHost(t, k, cpus);
      }
    }
  }

  // ---------------------------------------------------------------- auto-connect

  lemma AttemptOnHost(o: H.Options, sc: H.Script, pairs: seq<(int, int)>, check: nat, i: nat, cpus: Cpus)
    requires !o.useExplicit && i < |pairs| && ReachesHost(sc.dial(sc.dials + i), cpus) && forall n :: sc.ctx(n) == None
    ensures var r := H.AttemptAt(o, sc, pairs, check, i).1;
            && (r.Ok? <==> Installed(cpus, pairs[i]))
            && (r.Ok? ==> (r.value.rack, r.value.slot) == pairs[i] && Selected(r.value.remoteTSAP) == Some(pairs[i])
                          && r.value.setup == GrantedTo(cpus[pairs[i]].cfg, o))
  {
    hide H.Attempt, H.TSAPs, Selected, IsHost, GrantedTo;
    var env, rack, slot := sc.dial(sc.dials + i).env, pairs[i].0, pairs[i].1;
    TSAPsNameThePair(o, rack, slot);
    ConnectsToTheCpu(o, env, cpus, sc.ctx, check + 1, rack, slot);
    H.SessionIsNegotiated(o, H.Accepted(env), sc.ctx, check + 1, rack, slot);
  }

  /** Auto-connect opens a session with the CPU at the first pair of its order that has one, and fails exactly if none has. */
  lemma AutoConnectFindsTheFirstCpu(o: H.Options, sc: H.Script, pairs: seq<(int, int)>, cpus: Cpus) returns (k: nat)
    requires !o.useExplicit && (forall n :: ReachesHost(sc.dial(n), cpus)) && forall n :: sc.ctx(n) == None
    ensures k <= |pairs| && forall j :: 0 <= j < k ==> !Installed(cpus, pairs[j])
    ensures var r := H.FirstSuccess(o, sc, pairs).1;
            if k == |pairs| then r == Err(H.NoPairWorked)
            else r.Ok? && (r.value.rack, r.value.slot) == pairs[k] && Installed(cpus, pairs[k])
                 && Selected(r.value.remoteTSAP) == Some(pairs[k]) && r.value.setup == GrantedTo(cpus[pairs[k]].cfg, o)
  {
    hide H.FirstSuccess, Selected, ReachesHost, GrantedTo, Installed;
    var checks;
    k, checks := H.AutoConnectTriesInOrder(o, sc, pairs);
    forall j | 0 <= j < k ensures !Installed(cpus, pairs[j]) {
      assert H.FailedAttempt(o, sc, pairs, checks, j);
      AttemptOnHost(o, sc, pairs, checks[j], j, cpus);
    }
    if k < |pairs| {
      AttemptOnHost(o, sc, pairs, checks[k], k, cpus);
    }
  }

  /** Without the exhaustive search: slot 1 of rack 0, then its slots 2 and 0, then slot 1 of rack 1, then slot 3 of rack 0. */
  function Preferred(cpus: Cpus): Option<(int, int)> {
    if (0, 1) in cpus then Some((0, 1))
    else if (0, 2) in cpus then Some((0, 2))
    else if (0, 0) in cpus then Some((0, 0))
    else if (1, 1) in cpus then Some((1, 1))
    else if (0, 3) in cpus then Some((0, 3))
    else None
  }

  lemma AutoConnectPrefers(o: H.Options, sc: H.Script, cpus: Cpus)
    requires !o.useExplicit && (forall n :: ReachesHost(sc.dial(n), cpus)) && forall n :: sc.ctx(n) == None
    ensures var r := H.FirstSuccess(o, sc, H.COMMON_PAIRS).1;
            match Preferred(cpus)
            case None => r == Err(H.NoPairWorked)
            case Some(pair) => r.Ok? && (r.value.rack, r.value.slot) == pair && r.value.setup == GrantedTo(cpus[pair].cfg, o)
  {
    hide H.FirstSuccess, Selected, ReachesHost, GrantedTo;
    var k := AutoConnectFindsTheFirstCpu(o, sc, H.COMMON_PAIRS, cpus);
    var p := H.COMMON_PAIRS;
    assert p[0] == (0, 1) && p[1] == (0, 2) && p[2] == (0, 0) && p[3] == (1, 1) && p[4] == (0, 3);
  }

  // ---------------------------------------------------------------- comparison reads

  /** Every CPU negotiates a PDU that takes a read request. */
  predicate Readers(cpus: Cpus) {
    forall pair :: pair in cpus ==> RW.FitsPDU(Smallest(480, cpus[pair].cfg.maxPDU), 24)
  }

  predicate Nameable(addr: RW.Address) {
    addr.size > 0 && 0 <= addr.dbNumber < 0x1_0000 && 0 <= addr.start && addr.start + addr.size <= ADDRESSABLE
  }

  /** The memory a client of this pair sees. */
  function ViewAt(cpus: Cpus, pair: (int, int)): SD.View
    requires pair in cpus
  {
    var cpu := cpus[pair];
    SD.View(cpu.mem, Smallest(480, cpu.cfg.maxPDU), cpu.cfg.RefusesReadably())
  }

  /** There is a CPU at this pair, and the range can be read from it. */
  predicate HasRange(cpus: Cpus, pair: (int, int), addr: RW.Address)
    requires Nameable(addr)
  {
    Installed(cpus, pair) && SD.Obtainable(ViewAt(cpus, pair), (addr.area, addr.dbNumber), addr.start, addr.size)
  }

  function RangeOf(cpus: Cpus, pair: (int, int), addr: RW.Address): seq<byte>
    requires Nameable(addr) && HasRange(cpus, pair, addr)
  {
    cpus[pair].mem[(addr.area, addr.dbNumber)][addr.start..addr.start + addr.size]
  }

  /** A comparison read of a pair succeeds exactly if its CPU has the range, and brings that CPU's bytes; without a CPU it says why. */
  lemma ComparedOnHost(env: Env, cpus: Cpus, addr: RW.Address, rack: int, slot: int)
    requires IsHost(env.serve, cpus) && (forall n :: env.io(n) == Delivered) && Readers(cpus) && Nameable(addr)
    ensures var c, pair := CR.Compared(H.Accepted(env), NEVER, addr, rack, slot), (rack, slot);
            && (c.rack, c.slot) == pair
            && (c.status == RW.Success <==> HasRange(cpus, pair, addr))
            && (HasRange(cpus, pair, addr) ==> c.data == RangeOf(cpus, pair, addr))
            && (Installed(cpus, pair) && !HasRange(cpus, pair, addr) ==> c.status == SD.Refusal(ViewAt(cpus, pair)))
            && (!Installed(cpus, pair) ==>
                  c.data == [] && c.status == if 0 <= rack <= 7 && 0 <= slot <= 31 then RW.ProtocolErr else RW.TransportErr)
  {
    hide H.Attempt, H.TSAPs, Selected, IsHost, RW.ReadArea, MemoryAfter, SD.Reads, SD.Obtainable;
    var o := H.PairOptions(rack, slot);
    PairConnects(env, cpus, NEVER, rack, slot);
    TSAPsNameThePair(o, rack, slot);
    if Installed(cpus, (rack, slot)) {
      var session := ReadOnHost(env, cpus, addr, rack, slot);
      var read := RW.ReadArea(session.Opened(0, NEVER, 2), addr).1.value;
      SD.FaithfulRefusal(read, ViewAt(cpus, (rack, slot)), (addr.area, addr.dbNumber), addr.start, addr.size);
    } else if 0 <= rack <= 7 && 0 <= slot <= 31 {
      NoCpuRefuses(o, env, cpus, NEVER, 0, rack, slot);
    }
  }

  lemma ReadOnHost(env: Env, cpus: Cpus, addr: RW.Address, rack: int, slot: int) returns (session: H.Session)
    requires IsHost(env.serve, cpus) && (forall n :: env.io(n) == Delivered) && Readers(cpus) && Nameable(addr)
    requires Installed(cpus, (rack, slot))
    ensures H.ConnectPair(H.Accepted(env), NEVER, rack, slot) == (2, Ok(session)) && session.link.Valid()
    ensures var read := RW.ReadArea(session.Opened(0, NEVER, 2), addr).1;
            read.Ok? && SD.Faithful(read.value, ViewAt(cpus, (rack, slot)), (addr.area, addr.dbNumber), addr.start, addr.size)
  {
    hide H.Attempt, H.TSAPs, Selected, IsHost, RW.ReadArea, MemoryAfter, SD.Reads, SD.Obtainable, SD.Faithful;
    var o, cpu := H.PairOptions(rack, slot), cpus[(rack, slot)];
    PairConnects(env, cpus, NEVER, rack, slot);
    TSAPsNameThePair(o, rack, slot);
    HostLeadsToCpu(env.serve, cpus, o, rack, slot);
    session := SessionOpens(o, env, cpu.cfg, cpu.mem, NEVER, 0, rack, slot);
    SessionIsQuiet(o, env, cpu.cfg, cpu.mem, NEVER, 0, rack, slot, 0);
    SD.WorkingRead(session.Opened(0, NEVER, 2), cpu.cfg, cpu.mem, addr);
  }

  /** Each candidate's connection reaches the host, over a link that delivers everything. */
  ghost predicate AllReach(t: CR.Task, cpus: Cpus) {
    forall k :: ReachesHost(t.dial(k), cpus) && forall n :: t.dial(k).env.io(n) == Delivered
  }

  /** The flag of an uncancelled run: every candidate has a CPU with the range, and all the ranges hold the same bytes. */
  lemma CompareReadsEveryMemory(t: CR.Task, steps: seq<CR.Step>, f: CR.Fan, cpus: Cpus)
    requires CR.Run(t, CR.Init(t), steps, f) && f.returned && !f.cancelled
    requires AllReach(t, cpus) && Readers(cpus) && Nameable(t.addr)
    ensures CR.Insensitive(CR.Entries(f.results))
            <==> && |t.candidates| >= 2
                 && (forall k :: 0 <= k < |t.candidates| ==> HasRange(cpus, t.candidates[k], t.addr))
                 && (forall j, k :: 0 <= j < |t.candidates| && 0 <= k < |t.candidates| ==>
                       RangeOf(cpus, t.candidates[j], t.addr) == RangeOf(cpus, t.candidates[k], t.addr))
  {
    CR.VerdictOfTheRun(t, steps, f);
    hide CR.Run, CR.Compared, CR.Insensitive, HasRange, IsHost;
    forall k | 0 <= k < |t.candidates|
      ensures t.ReadOf(k).status == RW.Success <==> HasRange(cpus, t.candidates[k], t.addr)
      ensures HasRange(cpus, t.candidates[k], t.addr) ==> t.ReadOf(k).data == RangeOf(cpus, t.candidates[k], t.addr)
    {
      assert ReachesHost(t.dial(k), cpus);
      ComparedOnHost(t.dial(k).env, cpus, t.addr, t.candidates[k].0, t.candidates[k].1);
    }
  }
}
