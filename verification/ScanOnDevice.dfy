/** client/rangescan.go against the byte-array device: on a working link a scan reports exactly the memory that is there. */
module ScanOnDevice {
  import opened Bytes
  import opened S7
  import opened PduReadWrite
  import opened Link
  import opened Exchange
  import opened Plc
  import opened ReadAfterWrite
  import opened RangeScan
  import RW = ReadWrite

  /** A working link to the device, wide enough for one read request. */
  ghost predicate Working(s: State, cfg: Config, mem: Memory) {
    Quiet(s, cfg, mem) && Calm(s) && RW.FitsPDU(s.pduSize, READ_VAR_REQUEST_OVERHEAD)
  }

  /** Still working, and the device's memory is as before. */
  ghost predicate Same(s: State, s': State, cfg: Config, mem: Memory) {
    && Working(s', cfg, mem) && s.link.Some? && s'.pduSize == s.pduSize
    && MemoryAfter(cfg, mem, Sent(s')) == MemoryAfter(cfg, mem, Sent(s))
  }

  /** The device's memory, the PDU size it is read with, and whether its refusals are readable. */
  datatype View = View(now: Memory, pduSize: nat, readably: bool)

  ghost function ViewOf(s: State, cfg: Config, mem: Memory): View
    requires s.link.Some?
  {
    View(MemoryAfter(cfg, mem, Sent(s)), s.pduSize, cfg.RefusesReadably())
  }

  /** The range exists, and no chunk of its read is longer than an item can be. */
  predicate Obtainable(v: View, key: (byte, u16), start: nat, n: nat) {
    InRange(v.now, key, start, n) && Readable(v.pduSize, n)
  }

  /** How many of a read's chunks, from the first on, the device serves before it refuses one. */
  function Servable(now: Memory, key: (byte, u16), offset: nat, chunks: seq<nat>): (k: nat)
    ensures k <= |chunks|
    decreases |chunks|
  {
    if chunks == [] || !Serves(now, key, offset, chunks[0]) then 0
    else 1 + Servable(now, key, offset + chunks[0], chunks[1..])
  }

  function Held(now: Memory, key: (byte, u16), start: nat, n: nat): seq<byte> {
    if InRange(now, key, start, n) then now[key][start..start + n] else []
  }

  /** A range read in full, or the refusal of its first chunk that cannot be served, with the bytes of the chunks before it. */
  function Reads(now: Memory, readably: bool, key: (byte, u16), start: nat, chunks: seq<nat>, before: seq<byte>, requested: int): RW.ReadResult {
    var k := Servable(now, key, start, chunks);
    var data := before + Held(now, key, start, Sum(chunks[..k]));
    if k == |chunks| then RW.ReadResult(RW.Success, requested, |data|, data, 0, None)
    else if readably then RW.ReadResult(RW.Rejected, requested, |data|, data, 0x05, None)
    else RW.ReadResult(RW.ProtocolErr, requested, |data|, data, 0, None)
  }

  /** The read succeeded if and only if its range can be obtained, and then it brought that range; otherwise it says what was refused. */
  predicate Faithful(r: RW.ReadResult, v: View, key: (byte, u16), start: nat, n: nat) {
    && (r.status == RW.Success <==> Obtainable(v, key, start, n))
    && (r.status == RW.Success ==> r.data == v.now[key][start..start + n])
    && r == Reads(v.now, v.readably, key, start, RW.Plan(n, RW.MaxReadData(v.pduSize)), [], n)
  }

  lemma WorkingChunk(s: State, cfg: Config, mem: Memory, addr: S7AnyAddress)
    requires Working(s, cfg, mem) && Addressable(addr.dbNumber, addr.start, addr.size)
    ensures var (s', got) := RW.ReadChunk(s, addr);
            var key, now := (addr.area, addr.dbNumber), MemoryAfter(cfg, mem, Sent(s));
            && Same(s, s', cfg, mem)
            && got == if Serves(now, key, addr.start, addr.size)
                      then RW.ChunkRead.Bytes(now[key][addr.start..addr.start + addr.size]) else RefusedAs(cfg)
  {
    hide ReadRequest, Interpret, RW.OfReadReply, MemoryAfter, Act;
    ReadChunkLeavesMemory(s, cfg, mem, addr);
    assert s.ctx(s.checks) == None;
    var s1 := CtxErr(s).0;
    var req := ReadRequest(NextRef(s1), [addr]);
    RequestSizes(NextRef(s1), addr, []);
    CalmCall(s1, cfg, mem, req);
    PlcAnswersRead(cfg, MemoryAfter(cfg, mem, Sent(s)), NextRef(s1), addr);
  }

  lemma HeldGrows(now: Memory, key: (byte, u16), start: nat, n: nat, more: nat)
    requires InRange(now, key, start, n) && (more > 0 ==> InRange(now, key, start + n, more))
    ensures Held(now, key, start, n + more) == now[key][start..start + n] + Held(now, key, start + n, more)
  {
  }

  lemma {:induction false} ServedExist(now: Memory, key: (byte, u16), offset: nat, chunks: seq<nat>)
    ensures var m := Sum(chunks[..Servable(now, key, offset, chunks)]); m > 0 ==> InRange(now, key, offset, m)
    decreases |chunks|
  {
    var k := Servable(now, key, offset, chunks);
    if k > 0 {
      ServedExist(now, key, offset + chunks[0], chunks[1..]);
      assert chunks[..k][1..] == chunks[1..][..k - 1];
    }
  }

  lemma ReadsNothing(now: Memory, readably: bool, key: (byte, u16), start: nat, chunks: seq<nat>, before: seq<byte>, requested: int)
    requires chunks == [] || !Serves(now, key, start, chunks[0])
    ensures Reads(now, readably, key, start, chunks, before, requested)
         == if chunks == [] then RW.ReadResult(RW.Success, requested, |before|, before, 0, None)
            else if readably then RW.ReadResult(RW.Rejected, requested, |before|, before, 0x05, None)
            else RW.ReadResult(RW.ProtocolErr, requested, |before|, before, 0, None)
  {
    assert chunks[..0] == [] && before + Held(now, key, start, 0) == before;
  }

  /** One more chunk in front, which the device serves. */
  lemma ReadsMore(now: Memory, readably: bool, key: (byte, u16), start: nat, chunks: seq<nat>, before: seq<byte>, requested: int)
    requires chunks != [] && Serves(now, key, start, chunks[0])
    ensures Reads(now, readably, key, start, chunks, before, requested)
         == Reads(now, readably, key, start + chunks[0], chunks[1..], before + now[key][start..start + chunks[0]], requested)
  {
    DataMore(now, key, start, chunks, before);
    hide Held, Serves, Sum;
  }

  lemma DataMore(now: Memory, key: (byte, u16), start: nat, chunks: seq<nat>, before: seq<byte>)
    requires chunks != [] && Serves(now, key, start, chunks[0])
    ensures var n, k := chunks[0], Servable(now, key, start + chunks[0], chunks[1..]);
            before + Held(now, key, start, Sum(chunks[..k + 1]))
            == before + now[key][start..start + n] + Held(now, key, start + n, Sum(chunks[1..][..k]))
  {
    var n, k := chunks[0], Servable(now, key, start + chunks[0], chunks[1..]);
    ServedExist(now, key, start + n, chunks[1..]);
    var m := Sum(chunks[1..][..k]);
    assert chunks[..k + 1][1..] == chunks[1..][..k] && Sum(chunks[..k + 1]) == n + m;
    assert InRange(now, key, start, n);
    HeldGrows(now, key, start, n, m);
    hide Held, Servable, InRange, Sum;
    assert before + (now[key][start..start + n] + Held(now, key, start + n, m)) == before + now[key][start..start + n] + Held(now, key, start + n, m);
  }

  lemma {:induction false} WorkingChunks(
      s: State, cfg: Config, mem: Memory, area: byte, db: u16, offset: nat, chunks: seq<nat>, result: seq<byte>, requested: int)
    requires Working(s, cfg, mem) && Chunked(chunks, db, offset, offset + Sum(chunks)) && requested == |result| + Sum(chunks)
    ensures var (s', r) := RW.ReadChunks(s, area, db, offset, chunks, result, requested);
            && Same(s, s', cfg, mem)
            && r == Reads(MemoryAfter(cfg, mem, Sent(s)), cfg.RefusesReadably(), (area, db), offset, chunks, result, requested)
    decreases |chunks|
  {
    hide RW.ReadChunk, MemoryAfter, Reads;
    var key, now := (area, db), MemoryAfter(cfg, mem, Sent(s));
    if chunks == [] || !Serves(now, key, offset, chunks[0]) {
      ReadsNothing(now, cfg.RefusesReadably(), key, offset, chunks, result, requested);
    }
    if chunks != [] {
      var n, addr := chunks[0], S7AnyAddress(area, db, offset, chunks[0]);
      ChunkedRest(chunks, db, offset, offset + Sum(chunks));
      WorkingChunk(s, cfg, mem, addr);
      var (s1, got) := RW.ReadChunk(s, addr);
      if got.Bytes? {
        WorkingChunks(s1, cfg, mem, area, db, offset + n, chunks[1..], result + got.data, requested);
        ReadsMore(now, cfg.RefusesReadably(), key, offset, chunks, result, requested);
      }
    }
  }

  /**
   On a working link a read succeeds if and only if its range can be obtained, and otherwise returns the refusal of the
   first chunk that cannot be served, with its code and the bytes of the chunks before it; everything stays as it was.
   */
  lemma WorkingRead(s: State, cfg: Config, mem: Memory, addr: RW.Address)
    requires Working(s, cfg, mem) && addr.size > 0 && Wide(s, addr, addr.size)
    ensures var (s', r) := RW.ReadArea(s, addr);
            && Same(s, s', cfg, mem) && r.Ok?
            && Faithful(r.value, ViewOf(s, cfg, mem), (addr.area, addr.dbNumber), addr.start, addr.size)
  {
    hide RW.ReadChunks, MemoryAfter, RW.ReadArea, Reads;
    ReadSeesMemory(s, cfg, mem, addr);
    ReadSucceedsExactly(s, cfg, mem, addr);
    WorkingReadArea(s, cfg, mem, addr);
  }

  lemma WorkingReadArea(s: State, cfg: Config, mem: Memory, addr: RW.Address)
    requires Working(s, cfg, mem) && addr.size > 0 && Wide(s, addr, addr.size)
    ensures var (s', r) := RW.ReadArea(s, addr);
            var chunks := RW.Plan(addr.size, RW.MaxReadData(s.pduSize));
            && Same(s, s', cfg, mem)
            && r == Ok(Reads(MemoryAfter(cfg, mem, Sent(s)), cfg.RefusesReadably(), (addr.area, addr.dbNumber), addr.start, chunks, [], addr.size))
  {
    hide RW.ReadChunks, MemoryAfter, Reads;
    RW.PlanIsExact(addr.size, RW.MaxReadData(s.pduSize));
    WorkingChunks(s, cfg, mem, addr.area, addr.dbNumber, addr.start, RW.Plan(addr.size, RW.MaxReadData(s.pduSize)), [], addr.size);
  }

  /**
   So a read of a range that cannot be obtained is refused at some chunk k, the first that does not exist or is too long:
   the status is rejected, the return code the device's, and the data the chunks before k.
   */
  lemma RefusedReadExactly(s: State, cfg: Config, mem: Memory, addr: RW.Address) returns (k: nat)
    requires Working(s, cfg, mem) && addr.size > 0 && Wide(s, addr, addr.size)
    requires !Obtainable(ViewOf(s, cfg, mem), (addr.area, addr.dbNumber), addr.start, addr.size)
    ensures var now, key := MemoryAfter(cfg, mem, Sent(s)), (addr.area, addr.dbNumber);
            var chunks := RW.Plan(addr.size, RW.MaxReadData(s.pduSize));
            && k < |chunks| && !Serves(now, key, addr.start + Sum(chunks[..k]), chunks[k])
            && (forall i :: 0 <= i < k ==> Serves(now, key, addr.start + Sum(chunks[..i]), chunks[i]))
            && var data := Held(now, key, addr.start, Sum(chunks[..k]));
               RW.ReadArea(s, addr).1 == Ok(if cfg.RefusesReadably()
                                            then RW.ReadResult(RW.Rejected, addr.size, |data|, data, 0x05, None)
                                            else RW.ReadResult(RW.ProtocolErr, addr.size, |data|, data, 0, None))
  {
    hide MemoryAfter, RW.ReadArea, Serves, RW.Plan, RW.FitsPDU;
    WorkingRead(s, cfg, mem, addr);
    WorkingReadArea(s, cfg, mem, addr);
    var now, key := MemoryAfter(cfg, mem, Sent(s)), (addr.area, addr.dbNumber);
    var chunks := RW.Plan(addr.size, RW.MaxReadData(s.pduSize));
    k := Servable(now, key, addr.start, chunks);
    ServableExactly(now, key, addr.start, chunks);
    assert [] + Held(now, key, addr.start, Sum(chunks[..k])) == Held(now, key, addr.start, Sum(chunks[..k]));
  }

  lemma {:induction false} ServableExactly(now: Memory, key: (byte, u16), offset: nat, chunks: seq<nat>)
    ensures var k := Servable(now, key, offset, chunks);
            && (k < |chunks| ==> !Serves(now, key, offset + Sum(chunks[..k]), chunks[k]))
            && (forall i :: 0 <= i < k ==> Serves(now, key, offset + Sum(chunks[..i]), chunks[i]))
    decreases |chunks|
  {
    hide Serves;
    var k := Servable(now, key, offset, chunks);
    if k > 0 {
      ServableExactly(now, key, offset + chunks[0], chunks[1..]);
      assert chunks[..k][1..] == chunks[1..][..k - 1];
      forall i | 0 <= i < k ensures Serves(now, key, offset + Sum(chunks[..i]), chunks[i]) {
        if i > 0 {
          assert chunks[..i][1..] == chunks[1..][..i - 1] && chunks[1..][i - 1] == chunks[i];
        } else {
          assert chunks[..0] == [];
        }
      }
    } else {
      assert chunks[..0] == [];
    }
  }

  ghost predicate AllFaithful(rs: seq<RW.ReadResult>, v: View, key: (byte, u16), start: nat, n: nat) {
    forall i :: 0 <= i < |rs| ==> Faithful(rs[i], v, key, start, n)
  }

  lemma {:induction false} WorkingReads(s: State, cfg: Config, mem: Memory, addr: RW.Address, n: nat, before: seq<RW.ReadResult>)
    requires Working(s, cfg, mem) && addr.size > 0 && Wide(s, addr, addr.size)
    requires AllFaithful(before, ViewOf(s, cfg, mem), (addr.area, addr.dbNumber), addr.start, addr.size)
    ensures var (s', r) := ReadTimes(s, addr, n, before);
            && Same(s, s', cfg, mem) && r.Ok?
            && AllFaithful(r.value, ViewOf(s, cfg, mem), (addr.area, addr.dbNumber), addr.start, addr.size)
    decreases n
  {
    hide MemoryAfter, Faithful, RW.ReadArea;
    if n > 0 {
      assert s.ctx(s.checks) == None;
      var s1 := CtxErr(s).0;
      assert Working(s1, cfg, mem);
      WorkingRead(s1, cfg, mem, addr);
      var (s2, r) := RW.ReadArea(s1, addr);
      WorkingReads(s2, cfg, mem, addr, n - 1, before + [ResultOf(r, addr.size)]);
    }
  }

  /** The range can be obtained, and every byte of it is zero. */
  predicate ZeroWindow(v: View, key: (byte, u16), start: nat, n: nat) {
    Obtainable(v, key, start, n) && forall i :: start <= i < start + n ==> v.now[key][i] == 0
  }

  /**
   Faithful reads agree with each other, so the probe's verdict is faithful too, never inconclusive; repeated reads are
   stable, and all-zero exactly if the window is there and holds nothing but zeros.
   */
  lemma FaithfulVerdict(offset: nat, repeated: seq<RW.ReadResult>, attempts: seq<RW.ReadResult>, v: View, key: (byte, u16), n: nat)
    requires |repeated| > 0 && n > 0 && AllFaithful(repeated, v, key, offset, n) && AllFaithful(attempts, v, key, offset, n)
    ensures var obs := Verdict(offset, repeated, attempts);
            && Faithful(obs.result, v, key, offset, n)
            && obs.stable == (if |repeated| > 1 then Some(true) else None)
            && obs.allZero == (if |repeated| > 1 then Some(ZeroWindow(v, key, offset, n)) else None)
  {
    hide Reads, Obtainable;
    assert Faithful(repeated[0], v, key, offset, n) && Faithful(repeated[|repeated| - 1], v, key, offset, n);
    FaithfulAgree(repeated, v, key, offset, n);
    FaithfulAgree(attempts, v, key, offset, n);
    forall i | 0 <= i < |repeated| ensures ZeroRead(repeated[i]) <==> ZeroWindow(v, key, offset, n) {
      assert Faithful(repeated[i], v, key, offset, n);
      FaithfulZero(repeated[i], v, key, offset, n);
    }
  }

  lemma FaithfulZero(r: RW.ReadResult, v: View, key: (byte, u16), start: nat, n: nat)
    requires Faithful(r, v, key, start, n) && n > 0
    ensures ZeroRead(r) <==> ZeroWindow(v, key, start, n)
  {
    hide Reads;
    if r.status == RW.Success {
      var d := v.now[key];
      assert |r.data| == n && forall i :: 0 <= i < n ==> r.data[i] == d[start + i];
      if ZeroRead(r) {
        forall i | start <= i < start + n ensures d[i] == 0 {
          assert r.data[i - start] == 0;
        }
      }
    }
  }

  lemma FaithfulAgree(rs: seq<RW.ReadResult>, v: View, key: (byte, u16), start: nat, n: nat)
    requires AllFaithful(rs, v, key, start, n)
    ensures AllSame(rs)
  {
    hide Reads, Obtainable;
    forall i, j | 0 <= i < |rs| && 0 <= j < |rs| ensures SameRead(rs[i], rs[j]) {
      assert Faithful(rs[i], v, key, start, n) && Faithful(rs[j], v, key, start, n);
    }
  }

  /** The wire fields are wide enough for every probe of the scan. */
  predicate WideScan(s: State, req: RangeProbeRequest) {
    && s.pduSize < 0x1_0000 && 0 <= req.dbNumber < 0x1_0000 && 0 <= req.start
    && req.end + Width(req) <= ADDRESSABLE
  }

  ghost predicate Found(obs: Observation, req: RangeProbeRequest, v: View) {
    && 0 <= req.dbNumber < 0x1_0000 && 0 <= obs.offset
    && Faithful(obs.result, v, (req.area, req.dbNumber), obs.offset, Width(req))
    && obs.stable == (if Repeats(req) > 1 then Some(true) else None)
    && obs.allZero == (if Repeats(req) > 1 then Some(ZeroWindow(v, (req.area, req.dbNumber), obs.offset, Width(req))) else None)
  }

  lemma WorkingProbe(s: State, cfg: Config, mem: Memory, req: RangeProbeRequest, o: int)
    requires Working(s, cfg, mem) && WideScan(s, req) && req.start <= o < req.end
    ensures Same(s, Probe(s, req, o).0, cfg, mem) && Found(Probe(s, req, o).1, req, ViewOf(s, cfg, mem))
  {
    hide MemoryAfter, Faithful, ReadTimes;
    var addr, v, key := AddressOf(req, o), ViewOf(s, cfg, mem), (req.area, req.dbNumber);
    WorkingReads(s, cfg, mem, addr, Repeats(req), []);
    var (s1, repeated) := ReadTimes(s, addr, Repeats(req), []);
    if req.retries <= 0 {
      FaithfulVerdict(o, repeated.value, [], v, key, Width(req));
    } else {
      WorkingReads(s1, cfg, mem, addr, req.retries + 1, []);
      var attempts := ReadTimes(s1, addr, req.retries + 1, []).1;
      FaithfulVerdict(o, repeated.value, attempts.value, v, key, Width(req));
    }
  }

  lemma {:induction false} WorkingProbes(s: State, cfg: Config, mem: Memory, req: RangeProbeRequest, o: int, before: seq<Observation>)
    requires Working(s, cfg, mem) && WideScan(s, req) && req.start <= o
    requires forall k :: 0 <= k < |before| ==> Found(before[k], req, ViewOf(s, cfg, mem))
    ensures var (s', obs) := ProbeFrom(s, req, o, before);
            && Same(s, s', cfg, mem) && obs.Some?
            && forall k :: 0 <= k < |obs.value| ==> Found(obs.value[k], req, ViewOf(s, cfg, mem))
    decreases req.end - o
  {
    hide MemoryAfter, Found, Probe;
    if o < req.end {
      assert s.ctx(s.checks) == None;
      var s1 := CtxErr(s).0;
      assert Working(s1, cfg, mem);
      WorkingProbe(s1, cfg, mem, req, o);
      var (s2, obs) := Probe(s1, req, o);
      WorkingProbes(s2, cfg, mem, req, o + Stride(req), before + [obs]);
    }
  }

  /**
   On a working link a scan completes, leaves the memory alone, and every probe succeeds if and only if its whole window
   can be obtained, with just those bytes; with probes no further apart than they are long, the spans reported as readable
   cover a byte if and only if some probed window that can be obtained holds it, and those reported as refused if and only
   if one that cannot does.
   */
  lemma ScanFindsTheMemory(s: State, cfg: Config, mem: Memory, req: RangeProbeRequest, spans: seq<Span>, cuts: seq<nat>)
    requires Working(s, cfg, mem) && WideScan(s, req)
    ensures var (s', r) := ProbeFrom(s, req, req.start, []);
            var v := ViewOf(s, cfg, mem);
            && r.Some? && s'.link.Some? && MemoryAfter(cfg, mem, Sent(s')) == v.now
            && (forall k :: 0 <= k < |r.value| ==> Found(r.value[k], req, v))
            && (MaximalPartition(r.value, Stride(req), Width(req), spans, cuts) && Stride(req) <= Width(req) ==>
                  forall b :: (Covered(spans, RW.Success, b) <==> ObtainableAt(r.value, req, v, b))
                              && (Covered(spans, Refusal(v), b) <==> RefusedAt(r.value, req, v, b)))
  {
    hide MemoryAfter, ProbeFrom, Found, MaximalPartition;
    WorkingProbes(s, cfg, mem, req, req.start, []);
    var obs, v := ProbeFrom(s, req, req.start, []).1.value, ViewOf(s, cfg, mem);
    if MaximalPartition(obs, Stride(req), Width(req), spans, cuts) && Stride(req) <= Width(req) {
      forall b ensures (Covered(spans, RW.Success, b) <==> ObtainableAt(obs, req, v, b))
                       && (Covered(spans, Refusal(v), b) <==> RefusedAt(obs, req, v, b)) {
        SpansCoverTheProbes(obs, Stride(req), Width(req), spans, cuts, RW.Success, b);
        SpansCoverTheProbes(obs, Stride(req), Width(req), spans, cuts, Refusal(v), b);
        ProbedIsObtainable(obs, req, v, b);
        ProbedIsRefused(obs, req, v, b);
      }
    }
  }

  /** Byte b lies in the window of some probe, and that window can be obtained. */
  ghost predicate ObtainableAt(obs: seq<Observation>, req: RangeProbeRequest, v: View, b: int) {
    exists k :: 0 <= k < |obs| && WindowObtainable(obs[k], req, v, b)
  }

  predicate WindowObtainable(o: Observation, req: RangeProbeRequest, v: View, b: int) {
    && o.offset <= b < o.offset + Width(req)
    && 0 <= req.dbNumber < 0x1_0000 && 0 <= o.offset && Obtainable(v, (req.area, req.dbNumber), o.offset, Width(req))
  }

  /** The status of a window the device refuses. */
  function Refusal(v: View): RW.ReadStatus {
    if v.readably then RW.Rejected else RW.ProtocolErr
  }

  ghost predicate RefusedAt(obs: seq<Observation>, req: RangeProbeRequest, v: View, b: int) {
    exists k :: 0 <= k < |obs| && WindowRefused(obs[k], req, v, b)
  }

  predicate WindowRefused(o: Observation, req: RangeProbeRequest, v: View, b: int) {
    && o.offset <= b < o.offset + Width(req)
    && 0 <= req.dbNumber < 0x1_0000 && 0 <= o.offset && !Obtainable(v, (req.area, req.dbNumber), o.offset, Width(req))
  }

  lemma FaithfulRefusal(r: RW.ReadResult, v: View, key: (byte, u16), start: nat, n: nat)
    requires Faithful(r, v, key, start, n)
    ensures r.status == Refusal(v) <==> !Obtainable(v, key, start, n)
  {
  }

  lemma ProbedIsRefused(obs: seq<Observation>, req: RangeProbeRequest, v: View, b: int)
    requires forall k :: 0 <= k < |obs| ==> Found(obs[k], req, v)
    ensures Probed(obs, Width(req), Refusal(v), b) <==> RefusedAt(obs, req, v, b)
  {
    hide Faithful, Obtainable;
    forall k | 0 <= k < |obs| ensures ProbeCovers(obs[k], Width(req), Refusal(v), b) <==> WindowRefused(obs[k], req, v, b) {
      assert Found(obs[k], req, v);
      FaithfulRefusal(obs[k].result, v, (req.area, req.dbNumber), obs[k].offset, Width(req));
    }
  }

  lemma ProbedIsObtainable(obs: seq<Observation>, req: RangeProbeRequest, v: View, b: int)
    requires forall k :: 0 <= k < |obs| ==> Found(obs[k], req, v)
    ensures Probed(obs, Width(req), RW.Success, b) <==> ObtainableAt(obs, req, v, b)
  {
    if k :| 0 <= k < |obs| && ProbeCovers(obs[k], Width(req), RW.Success, b) {
      assert Found(obs[k], req, v);
      assert WindowObtainable(obs[k], req, v, b);
    }
    if k :| 0 <= k < |obs| && WindowObtainable(obs[k], req, v, b) {
      assert Found(obs[k], req, v);
      assert ProbeCovers(obs[k], Width(req), RW.Success, b);
    }
  }
}
