/** client/rangescan.go: the probe offsets, the verdict on repeated reads, and span consolidation. */
module RangeScan {
  import opened Bytes
  import opened Link
  import opened Exchange
  import RW = ReadWrite

  datatype Observation = Observation(offset: int, result: RW.ReadResult, stable: Option<bool>, allZero: Option<bool>) {
    function Status(): RW.ReadStatus { result.status }
  }
  datatype Note = StableDiffers | AllZeroDiffers
  datatype Span = Span(start: int, end: int, status: RW.ReadStatus, stable: Option<bool>, allZero: Option<bool>, notes: seq<Note>)
  datatype Summary = Summary(readable: seq<Span>, empty: seq<Span>, failed: seq<Span>, inconclusive: seq<Span>)

  // ---------------------------------------------------------------- offsets

  /** The loop over the requested range: the k-th offset is start + k * step, and the last one is the last below the end. */
  method ProbeOffsets(start: int, end: int, step: int) returns (offsets: seq<int>)
    requires step >= 1 && start <= end
    ensures forall k :: 0 <= k < |offsets| ==> offsets[k] == start + k * step
    ensures Reaches(|offsets|, start, end, step)
  {
    offsets := [];
    var o := start;
    while o < end
      invariant o == start + |offsets| * step && o < end + step
      invariant forall k :: 0 <= k < |offsets| ==> offsets[k] == start + k * step
      decreases end - o
    {
      offsets := offsets + [o];
      o := o + step;
    }
  }

  // ---------------------------------------------------------------- repeated reads

  predicate SameRead(a: RW.ReadResult, b: RW.ReadResult) {
    a.status == b.status && a.data == b.data
  }

  predicate ZeroRead(r: RW.ReadResult) {
    r.status == RW.Success && |r.data| > 0 && forall i :: 0 <= i < |r.data| ==> r.data[i] == 0
  }

  predicate AllZero(rs: seq<RW.ReadResult>) {
    forall i :: 0 <= i < |rs| ==> ZeroRead(rs[i])
  }

  predicate AllSame(rs: seq<RW.ReadResult>) {
    forall i, j :: 0 <= i < |rs| && 0 <= j < |rs| ==> SameRead(rs[i], rs[j])
  }

  /** The loops compare with the first read only; that is enough. */
  method CompareWithFirst(rs: seq<RW.ReadResult>) returns (same: bool)
    ensures same <==> AllSame(rs)
  {
    var n := 1;
    while n < |rs|
      invariant 1 <= n && (n <= |rs| || |rs| == 0)
      invariant forall i :: 0 <= i < n && i < |rs| ==> SameRead(rs[i], rs[0])
    {
      if rs[n].status != rs[0].status || rs[n].data != rs[0].data {
        assert !SameRead(rs[n], rs[0]);
        return false;
      }
      n := n + 1;
    }
    forall i, j | 0 <= i < |rs| && 0 <= j < |rs| ensures SameRead(rs[i], rs[j]) {
      assert SameRead(rs[i], rs[0]) && SameRead(rs[j], rs[0]);
    }
    return true;
  }

  /** Stable: all reads agree; all-zero: every read succeeded with nothing but zero bytes. */
  method JudgeRepeats(repeated: seq<RW.ReadResult>) returns (stable: bool, allZero: bool)
    requires |repeated| > 0
    ensures stable <==> AllSame(repeated)
    ensures allZero <==> forall i :: 0 <= i < |repeated| ==> ZeroRead(repeated[i])
  {
    stable, allZero := true, true;
    for n := 0 to |repeated|
      invariant stable <==> forall i :: 0 <= i < n ==> SameRead(repeated[i], repeated[0])
      invariant allZero <==> forall i :: 0 <= i < n ==> ZeroRead(repeated[i])
    {
      var r := repeated[n];
      if r.status != repeated[0].status || r.data != repeated[0].data {
        stable := false;
      }
      if r.status == RW.Success && |r.data| > 0 {
        for b := 0 to |r.data|
          invariant forall i :: 0 <= i < b ==> r.data[i] == 0
          invariant allZero <==> forall i :: 0 <= i < n ==> ZeroRead(repeated[i])
        {
          if r.data[b] != 0 {
            allZero := false;
            break;
          }
        }
      } else {
        allZero := false;
      }
    }
    if stable {
      forall i, j | 0 <= i < |repeated| && 0 <= j < |repeated| ensures SameRead(repeated[i], repeated[j]) {
        assert SameRead(repeated[i], repeated[0]) && SameRead(repeated[j], repeated[0]);
      }
    }
  }

  // ---------------------------------------------------------------- consolidation

  /** Observation k carries on the run of observation k - 1. */
  predicate CarriesOn(obs: seq<Observation>, step: int, k: int)
    requires 0 < k < |obs|
  {
    obs[k].Status() == obs[k - 1].Status() && obs[k].offset == obs[k - 1].offset + step
  }

  /** The value the probes of a run agree on: there is one exactly when some probe has a value and all that have one agree. */
  ghost predicate Agreed(values: seq<Option<bool>>, v: Option<bool>) {
    if v.Some? then v in values && forall i :: 0 <= i < |values| ==> values[i].None? || values[i] == v
    else Silent(values) || Split(values)
  }

  ghost predicate Silent(values: seq<Option<bool>>) {
    forall i :: 0 <= i < |values| ==> values[i].None?
  }

  ghost predicate Split(values: seq<Option<bool>>) {
    Some(true) in values && Some(false) in values
  }

  function Stables(run: seq<Observation>): (r: seq<Option<bool>>)
    ensures |r| == |run|
  {
    seq(|run|, i requires 0 <= i < |run| => run[i].stable)
  }

  function AllZeros(run: seq<Observation>): (r: seq<Option<bool>>)
    ensures |r| == |run|
  {
    seq(|run|, i requires 0 <= i < |run| => run[i].allZero)
  }

  /** The merging loop, with its early exit on the first disagreement. */
  method MergeValues(values: seq<Option<bool>>) returns (v: Option<bool>, differ: bool)
    ensures Agreed(values, v)
    ensures differ <==> Split(values)
  {
    v, differ := None, false;
    for k := 0 to |values|
      invariant !differ
      invariant v.Some? ==> v in values[..k]
      invariant forall i :: 0 <= i < k ==> values[i].None? || values[i] == v
    {
      if values[k].Some? {
        if v.None? {
          v := values[k];
        } else if v.value != values[k].value {
          v, differ := None, true;
          return;
        }
      }
    }
  }

  ghost predicate SpanOf(span: Span, run: seq<Observation>, probeSize: int) {
    && run != [] && span.start == run[0].offset && span.end == run[|run| - 1].offset + probeSize && span.status == run[0].Status()
    && Agreed(Stables(run), span.stable) && Agreed(AllZeros(run), span.allZero)
    && span.notes == (if Split(Stables(run)) then [StableDiffers] else []) + (if Split(AllZeros(run)) then [AllZeroDiffers] else [])
  }

  /**
   The spans are the observation list cut into runs at exactly the places where it does not carry on:
   span s is made of the observations cuts[s] .. cuts[s + 1].
   */
  ghost predicate MaximalPartition(obs: seq<Observation>, step: int, probeSize: int, spans: seq<Span>, cuts: seq<nat>) {
    PartitionUpTo(obs, step, probeSize, spans, cuts, |obs|)
  }

  ghost predicate PartitionUpTo(obs: seq<Observation>, step: int, probeSize: int, spans: seq<Span>, cuts: seq<nat>, upto: nat) {
    && |cuts| == |spans| + 1 && cuts[0] == 0 && cuts[|spans|] == upto <= |obs|
    && (forall s :: 0 <= s < |spans| ==> Cut(obs, step, probeSize, spans[s], cuts, s))
    && (upto < |obs| ==> Boundary(obs, step, upto))
  }

  /** Span s comes from the run between its two cuts: the run carries on inside, and not across its first cut. */
  ghost predicate Cut(obs: seq<Observation>, step: int, probeSize: int, span: Span, cuts: seq<nat>, s: nat)
    requires s + 1 < |cuts|
  {
    && cuts[s] < cuts[s + 1] <= |obs|
    && SpanOf(span, obs[cuts[s]..cuts[s + 1]], probeSize)
    && Boundary(obs, step, cuts[s])
    && forall k :: cuts[s] < k < cuts[s + 1] ==> CarriesOn(obs, step, k)
  }

  ghost predicate Boundary(obs: seq<Observation>, step: int, k: nat)
    requires k < |obs|
  {
    k == 0 || !CarriesOn(obs, step, k)
  }

  function Only(spans: seq<Span>, status: RW.ReadStatus): seq<Span> {
    if spans == [] then []
    else Only(spans[..|spans| - 1], status) + if spans[|spans| - 1].status == status then [spans[|spans| - 1]] else []
  }

  function Lookup(m: map<RW.ReadStatus, seq<Span>>, status: RW.ReadStatus): seq<Span> {
    if status in m then m[status] else []
  }

  const KNOWN: seq<RW.ReadStatus> := [RW.Success, RW.EmptyRead, RW.Rejected, RW.Timeout, RW.TransportErr, RW.ProtocolErr, RW.ShortRead, RW.Inconclusive]
  const FAILED: seq<RW.ReadStatus> := [RW.Rejected, RW.Timeout, RW.TransportErr, RW.ProtocolErr, RW.ShortRead]

  function FailedOf(spans: seq<Span>, n: nat): seq<Span>
    requires n <= |FAILED|
  {
    if n == 0 then [] else FailedOf(spans, n - 1) + Only(spans, FAILED[n - 1])
  }

  /** One run from observation i on, and the span it makes. */
  method NextSpan(obs: seq<Observation>, step: int, probeSize: int, i: nat) returns (span: Span, j: nat)
    requires i < |obs|
    ensures i < j <= |obs| && SpanOf(span, obs[i..j], probeSize)
    ensures forall k :: i < k < j ==> CarriesOn(obs, step, k)
    ensures j < |obs| ==> !CarriesOn(obs, step, j)
  {
    var status, start := obs[i].Status(), obs[i].offset;
    var end := start + probeSize;
    j := i + 1;
    while j < |obs| && obs[j].Status() == status && obs[j].offset == obs[j - 1].offset + step
      invariant i < j <= |obs| && end == obs[j - 1].offset + probeSize && obs[j - 1].Status() == status
      invariant forall k :: i < k < j ==> CarriesOn(obs, step, k)
    {
      end := obs[j].offset + probeSize;
      j := j + 1;
    }
    var stable, stableDiffers := MergeValues(Stables(obs[i..j]));
    var notes := if stableDiffers then [StableDiffers] else [];
    var allZero, allZeroDiffers := MergeValues(AllZeros(obs[i..j]));
    if allZeroDiffers {
      notes := notes + [AllZeroDiffers];
    }
    span := Span(start, end, status, stable, allZero, notes);
  }

  method ConsolidateSpans(observations: seq<Observation>, step: int, probeSize: int)
    returns (spans: seq<Span>, summary: Summary, ghost cuts: seq<nat>)
    ensures MaximalPartition(observations, if step > 0 then step else probeSize, probeSize, spans, cuts)
    ensures summary == SummaryOf(spans)
  {
    hide SpanOf, CarriesOn, FailedOf;
    spans, summary, cuts := [], Summary([], [], [], []), [0];
    if |observations| == 0 {
      FailedOfNone(|FAILED|);
      return;
    }
    var stride := if step <= 0 then probeSize else step;
    var byStatus: map<RW.ReadStatus, seq<Span>> := map s | s in KNOWN :: [];
    var i := 0;
    while i < |observations|
      invariant 0 <= i <= |observations|
      invariant PartitionUpTo(observations, stride, probeSize, spans, cuts, i)
      invariant forall s :: Lookup(byStatus, s) == Only(spans, s)
    {
      var span, j := NextSpan(observations, stride, probeSize, i);
      Extend(observations, stride, probeSize, spans, cuts, i, span, j);
      spans := spans + [span];
      cuts := cuts + [j];
      assert spans[..|spans| - 1] + [span] == spans;
      byStatus := byStatus[span.status := Lookup(byStatus, span.status) + [span]];
      i := j;
    }
    var failed := CollectFailed(byStatus, spans);
    summary := Summary(Lookup(byStatus, RW.Success), Lookup(byStatus, RW.EmptyRead), failed, Lookup(byStatus, RW.Inconclusive));
  }

  method CollectFailed(byStatus: map<RW.ReadStatus, seq<Span>>, ghost spans: seq<Span>) returns (failed: seq<Span>)
    requires forall s :: Lookup(byStatus, s) == Only(spans, s)
    ensures failed == FailedOf(spans, |FAILED|)
  {
    failed := [];
    for n := 0 to |FAILED|
      invariant failed == FailedOf(spans, n)
    {
      failed := failed + Lookup(byStatus, FAILED[n]);
    }
  }

  function SummaryOf(spans: seq<Span>): Summary {
    Summary(Only(spans, RW.Success), Only(spans, RW.EmptyRead), FailedOf(spans, |FAILED|), Only(spans, RW.Inconclusive))
  }

  lemma {:induction false} FailedOfNone(n: nat)
    requires n <= |FAILED|
    ensures FailedOf([], n) == []
  {
    if n > 0 {
      FailedOfNone(n - 1);
    }
  }

  lemma Extend(obs: seq<Observation>, step: int, probeSize: int, spans: seq<Span>, cuts: seq<nat>, i: nat, span: Span, j: nat)
    requires PartitionUpTo(obs, step, probeSize, spans, cuts, i) && i < j <= |obs| && SpanOf(span, obs[i..j], probeSize)
    requires (forall k :: i < k < j ==> CarriesOn(obs, step, k)) && (j < |obs| ==> !CarriesOn(obs, step, j))
    ensures PartitionUpTo(obs, step, probeSize, spans + [span], cuts + [j], j)
  {
    hide SpanOf;
    var cuts', spans' := cuts + [j], spans + [span];
    forall s | 0 <= s < |spans'| ensures Cut(obs, step, probeSize, spans'[s], cuts', s) {
      assert s < |spans| ==> Cut(obs, step, probeSize, spans[s], cuts, s);
    }
  }

  // ---------------------------------------------------------------- the scan

  datatype ScanError = InvalidRequest | NotConnected | Cancelled
  datatype RangeProbeRequest = RangeProbeRequest(
    area: byte, dbNumber: int, start: int, end: int, step: int, probeSize: int, retries: int, repeats: int, parallelism: int)

  predicate WellFormed(req: RangeProbeRequest) {
    && req.start <= req.end && !(req.area == RW.AREA_DB && req.dbNumber < 0)
    && req.probeSize >= 0 && req.retries >= 0 && req.repeats >= 0 && req.parallelism >= 0
  }

  function Width(req: RangeProbeRequest): (w: int)
    ensures w == 8 || w == req.probeSize > 0
  {
    if req.probeSize <= 0 then 8 else req.probeSize
  }

  /**
   The stride falls back to the requested probe size before the probe size itself falls back to 8: windows abut by default,
   but with neither given they overlap, eight bytes wide and one byte apart.
   */
  function Stride(req: RangeProbeRequest): (r: int)
    ensures r > 0 && (req.step > 0 ==> r == req.step)
    ensures req.step <= 0 ==> if req.probeSize > 0 then r == Width(req) else r == 1 && Width(req) == 8
  {
    if req.step > 0 then req.step else if req.probeSize > 0 then req.probeSize else 1
  }

  function Repeats(req: RangeProbeRequest): (n: nat)
    ensures n > 0
  {
    if req.repeats < 1 then 1 else req.repeats
  }

  function AddressOf(req: RangeProbeRequest, offset: int): RW.Address {
    RW.Address(req.area, req.dbNumber, offset, Width(req))
  }

  function StoppedRead(size: int, done: CtxError): RW.ReadResult {
    RW.ReadResult(RW.ClassifyOpError(Io(IoError.Cancelled(done))), size, 0, [], 0, Some(Io(IoError.Cancelled(done))))
  }

  /** A read's result; an address the client refuses is classified like a transport failure. */
  function ResultOf(r: Result<RW.ReadResult, RW.ValidationError>, size: int): RW.ReadResult {
    match r
    case Ok(result) => result
    case Err(_) => RW.ReadResult(RW.TransportErr, size, 0, [], 0, None)
  }

  /** n more reads of one address, one after another on the client, unless the context is done before one of them. */
  function ReadTimes(s: State, addr: RW.Address, n: nat, before: seq<RW.ReadResult>): (r: (State, Result<seq<RW.ReadResult>, CtxError>))
    requires s.Valid()
    ensures r.0.Valid() && (r.1.Ok? ==> |r.1.value| == |before| + n)
    decreases n
  {
    if n == 0 then (s, Ok(before)) else
    var (s1, done) := CtxErr(s);
    if done.Some? then (s1, Err(done.value)) else
    var (s2, r) := RW.ReadArea(s1, addr);
    ReadTimes(s2, addr, n - 1, before + [ResultOf(r, addr.size)])
  }

  /** What the reads of one offset say: any disagreement within the repeats or within the retries makes the probe inconclusive. */
  function Verdict(offset: int, repeated: seq<RW.ReadResult>, attempts: seq<RW.ReadResult>): (obs: Observation)
    requires |repeated| > 0
    ensures obs.Status() == if AllSame(repeated) && AllSame(attempts) then repeated[0].status else RW.Inconclusive
    ensures obs.offset == offset && obs.result == repeated[|repeated| - 1].(status := obs.Status())
    ensures |repeated| == 1 ==> obs.stable.None? && obs.allZero.None?
    ensures |repeated| > 1 ==> obs.stable == Some(AllSame(repeated)) && obs.allZero == Some(AllZero(repeated))
  {
    var last := repeated[|repeated| - 1];
    assert AllSame(repeated) ==> SameRead(last, repeated[0]);
    var several := |repeated| > 1;
    Observation(offset, if AllSame(repeated) && AllSame(attempts) then last else last.(status := RW.Inconclusive),
                if several then Some(AllSame(repeated)) else None,
                if several then Some(AllZero(repeated)) else None)
  }

  /** Probing one offset: the Repeat reads, then the Retries + 1 further reads when Retries is positive. */
  function Probe(s: State, req: RangeProbeRequest, offset: int): (r: (State, Observation))
    requires s.Valid()
    ensures r.0.Valid() && r.1.offset == offset
  {
    var addr := AddressOf(req, offset);
    var (s1, repeated) := ReadTimes(s, addr, Repeats(req), []);
    match repeated
    case Err(c) => (s1, Observation(offset, StoppedRead(addr.size, c), None, None))
    case Ok(rs) =>
      if req.retries <= 0 then (s1, Verdict(offset, rs, [])) else
      var (s2, attempts) := ReadTimes(s1, addr, req.retries + 1, []);
      match attempts
      case Err(c) => (s2, Observation(offset, StoppedRead(addr.size, c), None, None))
      case Ok(more) => (s2, Verdict(offset, rs, more))
  }

  /** The offsets from o on, in steps, until the end; the context is looked at before each. */
  function ProbeFrom(s: State, req: RangeProbeRequest, o: int, before: seq<Observation>): (r: (State, Option<seq<Observation>>))
    requires s.Valid()
    ensures r.0.Valid()
    decreases req.end - o
  {
    if o >= req.end then (s, Some(before)) else
    var (s1, done) := CtxErr(s);
    if done.Some? then (s1, None) else
    var (s2, obs) := Probe(s1, req, o);
    ProbeFrom(s2, req, o + Stride(req), before + [obs])
  }

  // ---------------------------------------------------------------- the reads of one probe

  /** The client when read number i of this address begins, from 0 on. */
  function ClientBefore(s: State, addr: RW.Address, i: nat): (s': State)
    requires s.Valid()
    ensures s'.Valid()
  {
    if i == 0 then s else RW.ReadArea(CtxErr(ClientBefore(s, addr, i - 1)).0, addr).0
  }

  /** And what that read brings. */
  function ReadNumber(s: State, addr: RW.Address, i: nat): RW.ReadResult
    requires s.Valid()
  {
    ResultOf(RW.ReadArea(CtxErr(ClientBefore(s, addr, i)).0, addr).1, addr.size)
  }

  ghost predicate NotDone(s: State, addr: RW.Address, i: nat)
    requires s.Valid()
  {
    var s' := ClientBefore(s, addr, i); s'.ctx(s'.checks) == None
  }

  lemma {:induction false} ClientShifts(s: State, addr: RW.Address, n: nat, i: nat)
    requires s.Valid()
    ensures ClientBefore(ClientBefore(s, addr, n), addr, i) == ClientBefore(s, addr, n + i)
    decreases i
  {
    hide RW.ReadArea;
    if i > 0 {
      ClientShifts(s, addr, n, i - 1);
    }
  }

  lemma {:induction false} ReadTimesExactly(s: State, addr: RW.Address, n: nat, before: seq<RW.ReadResult>)
    requires s.Valid() && forall i :: 0 <= i < n ==> NotDone(s, addr, i)
    ensures var (s', r) := ReadTimes(s, addr, n, before);
            && s' == ClientBefore(s, addr, n) && r.Ok? && |r.value| == |before| + n && before <= r.value
            && forall i :: 0 <= i < n ==> r.value[|before| + i] == ReadNumber(s, addr, i)
    decreases n
  {
    hide RW.ReadArea;
    if n > 0 {
      assert NotDone(s, addr, 0);
      var (s2, one) := RW.ReadArea(CtxErr(s).0, addr);
      assert s2 == ClientBefore(s, addr, 1) by {
        assert ClientBefore(s, addr, 0) == s;
      }
      forall i | 0 <= i < n - 1
        ensures NotDone(s2, addr, i) && ReadNumber(s2, addr, i) == ReadNumber(s, addr, i + 1)
      {
        ClientShifts(s, addr, 1, i);
        assert NotDone(s, addr, i + 1);
      }
      ClientShifts(s, addr, 1, n - 1);
      var first := ResultOf(one, addr.size);
      ReadTimesExactly(s2, addr, n - 1, before + [first]);
      var all := ReadTimes(s, addr, n, before).1.value;
      forall i | 0 <= i < n ensures all[|before| + i] == ReadNumber(s, addr, i) {
        if i > 0 {
          assert all[|before + [first]| + (i - 1)] == ReadNumber(s2, addr, i - 1);
        } else {
          assert (before + [first])[|before|] == first && first == ReadNumber(s, addr, 0);
        }
      }
    }
  }

  /** The reads numbered from..to agree with each other. */
  ghost predicate Agree(s: State, addr: RW.Address, from: nat, to: nat)
    requires s.Valid()
  {
    forall i, j :: from <= i < to && from <= j < to ==> SameRead(ReadNumber(s, addr, i), ReadNumber(s, addr, j))
  }

  /** The first n reads succeeded, with nothing but zero bytes. */
  ghost predicate Zeros(s: State, addr: RW.Address, n: nat)
    requires s.Valid()
  {
    forall i :: 0 <= i < n ==> ZeroRead(ReadNumber(s, addr, i))
  }

  /** How many further reads the retries add. */
  function Further(req: RangeProbeRequest): nat {
    if req.retries > 0 then req.retries + 1 else 0
  }

  /**
   A probe the context does not stop makes the Repeat reads and then, if Retries is positive, Retries + 1 more, all of the
   same window. It brings the last of the Repeat reads, made inconclusive exactly if two of those reads differ or two of the
   further ones do; more than one read is judged for stability and for being all zero.
   */
  lemma ProbeUsesEveryRead(s: State, req: RangeProbeRequest, offset: int)
    requires s.Valid()
    requires forall i :: 0 <= i < Repeats(req) + Further(req) ==> NotDone(s, AddressOf(req, offset), i)
    ensures AddressOf(req, offset) == RW.Address(req.area, req.dbNumber, offset, if req.probeSize > 0 then req.probeSize else 8)
    ensures Repeats(req) == (if req.repeats > 1 then req.repeats else 1)
    ensures var addr, n, m := AddressOf(req, offset), Repeats(req), Further(req);
            var (s', obs) := Probe(s, req, offset);
            var last := ReadNumber(s, addr, n - 1);
            && s' == ClientBefore(s, addr, n + m) && obs.offset == offset
            && obs.result == (if Agree(s, addr, 0, n) && Agree(s, addr, n, n + m) then last else last.(status := RW.Inconclusive))
            && obs.stable == (if n > 1 then Some(Agree(s, addr, 0, n)) else None)
            && obs.allZero == (if n > 1 then Some(Zeros(s, addr, n)) else None)
  {
    hide RW.ReadArea, ReadTimes, ReadNumber, ClientBefore, Verdict, Agree, Zeros, NotDone;
    var addr, n, m := AddressOf(req, offset), Repeats(req), Further(req);
    ReadsFrom(s, addr, 0, n);
    ReadsFrom(s, addr, n, m);
    NoReadYet(s, addr);
    var (s1, repeated) := ReadTimes(s, addr, n, []);
    var attempts := if m > 0 then ReadTimes(s1, addr, m, []).1.value else [];
    VerdictMeans(s, addr, offset, n, m, repeated.value, attempts);
  }

  lemma NoReadYet(s: State, addr: RW.Address)
    requires s.Valid()
    ensures ClientBefore(s, addr, 0) == s
  {
  }

  /** Reads number n to n + m, made one after another. */
  lemma ReadsFrom(s: State, addr: RW.Address, n: nat, m: nat)
    requires s.Valid() && forall i :: n <= i < n + m ==> NotDone(s, addr, i)
    ensures var (s', r) := ReadTimes(ClientBefore(s, addr, n), addr, m, []);
            s' == ClientBefore(s, addr, n + m) && r.Ok? && |r.value| == m && forall i :: 0 <= i < m ==> r.value[i] == ReadNumber(s, addr, n + i)
  {
    hide RW.ReadArea, ReadTimes, ReadNumber, ClientBefore, NotDone;
    var s1 := ClientBefore(s, addr, n);
    forall i | 0 <= i < m ensures NotDone(s1, addr, i) && ReadNumber(s1, addr, i) == ReadNumber(s, addr, n + i) {
      ReadShifts(s, addr, n, i);
    }
    ClientShifts(s, addr, n, m);
    ReadTimesExactly(s1, addr, m, []);
    var r := ReadTimes(s1, addr, m, []).1;
    forall i | 0 <= i < m ensures r.value[i] == ReadNumber(s, addr, n + i) {
      var none: seq<RW.ReadResult> := [];
      assert r.value[|none| + i] == ReadNumber(s1, addr, i);
    }
  }

  lemma VerdictMeans(s: State, addr: RW.Address, offset: int, n: nat, m: nat, repeated: seq<RW.ReadResult>, attempts: seq<RW.ReadResult>)
    requires s.Valid() && |repeated| == n > 0 && |attempts| == m
    requires forall i :: 0 <= i < n ==> repeated[i] == ReadNumber(s, addr, i)
    requires forall i :: 0 <= i < m ==> attempts[i] == ReadNumber(s, addr, n + i)
    ensures var obs, last := Verdict(offset, repeated, attempts), ReadNumber(s, addr, n - 1);
            && obs.offset == offset
            && obs.result == (if Agree(s, addr, 0, n) && Agree(s, addr, n, n + m) then last else last.(status := RW.Inconclusive))
            && obs.stable == (if n > 1 then Some(Agree(s, addr, 0, n)) else None)
            && obs.allZero == (if n > 1 then Some(Zeros(s, addr, n)) else None)
  {
    hide ReadNumber, SameRead, ZeroRead, AllSame, AllZero, Agree, Zeros, Verdict;
    AgreeMeans(s, addr, 0, n, repeated);
    AgreeMeans(s, addr, n, m, attempts);
    ZeroMeans(s, addr, repeated);
    LastLikeFirst(repeated);
  }

  lemma LastLikeFirst(rs: seq<RW.ReadResult>)
    requires rs != []
    ensures AllSame(rs) ==> rs[|rs| - 1].status == rs[0].status
  {
    assert AllSame(rs) ==> SameRead(rs[|rs| - 1], rs[0]);
  }

  lemma ZeroMeans(s: State, addr: RW.Address, repeated: seq<RW.ReadResult>)
    requires s.Valid() && forall i :: 0 <= i < |repeated| ==> repeated[i] == ReadNumber(s, addr, i)
    ensures AllZero(repeated) <==> Zeros(s, addr, |repeated|)
  {
    hide ReadNumber, ZeroRead;
    if AllZero(repeated) {
      forall i | 0 <= i < |repeated| ensures ZeroRead(ReadNumber(s, addr, i)) {
        assert ZeroRead(repeated[i]);
      }
    }
  }


  lemma ReadShifts(s: State, addr: RW.Address, n: nat, i: nat)
    requires s.Valid() && NotDone(s, addr, n + i)
    ensures NotDone(ClientBefore(s, addr, n), addr, i) && ReadNumber(ClientBefore(s, addr, n), addr, i) == ReadNumber(s, addr, n + i)
  {
    hide RW.ReadArea, ClientBefore;
    ClientShifts(s, addr, n, i);
  }

  lemma AgreeMeans(s: State, addr: RW.Address, from: nat, n: nat, rs: seq<RW.ReadResult>)
    requires s.Valid() && |rs| == n && forall i :: 0 <= i < n ==> rs[i] == ReadNumber(s, addr, from + i)
    ensures AllSame(rs) <==> Agree(s, addr, from, from + n)
  {
    hide ReadNumber, SameRead;
    if AllSame(rs) {
      forall i, j | from <= i < from + n && from <= j < from + n ensures SameRead(ReadNumber(s, addr, i), ReadNumber(s, addr, j)) {
        assert rs[i - from] == ReadNumber(s, addr, i) && rs[j - from] == ReadNumber(s, addr, j);
      }
    }
    if Agree(s, addr, from, from + n) {
      forall i, j | 0 <= i < |rs| && 0 <= j < |rs| ensures SameRead(rs[i], rs[j]) {
        assert SameRead(ReadNumber(s, addr, from + i), ReadNumber(s, addr, from + j));
      }
    }
  }

  lemma {:induction false} StoppedReads(s: State, addr: RW.Address, n: nat, i: nat, before: seq<RW.ReadResult>)
    requires s.Valid() && i < n && (forall j :: 0 <= j < i ==> NotDone(s, addr, j)) && !NotDone(s, addr, i)
    ensures var at := ClientBefore(s, addr, i); at.ctx(at.checks).Some? && ReadTimes(s, addr, n, before).1 == Err(at.ctx(at.checks).value)
    decreases n
  {
    hide RW.ReadArea;
    if i > 0 {
      assert NotDone(s, addr, 0);
      var (s2, one) := RW.ReadArea(CtxErr(s).0, addr);
      assert s2 == ClientBefore(s, addr, 1) by {
        assert ClientBefore(s, addr, 0) == s;
      }
      forall j | 0 <= j < i - 1 ensures NotDone(s2, addr, j) {
        ClientShifts(s, addr, 1, j);
        assert NotDone(s, addr, j + 1);
      }
      ClientShifts(s, addr, 1, i - 1);
      StoppedReads(s2, addr, n - 1, i - 1, before + [ResultOf(one, addr.size)]);
    }
  }

  /**
   A probe the context stops before read number i brings no byte of the reads before: a timeout if the deadline has passed,
   and a transport error if it was cancelled.
   */
  lemma StoppedProbe(s: State, req: RangeProbeRequest, offset: int, i: nat)
    requires s.Valid() && i < Repeats(req) + Further(req)
    requires (forall j :: 0 <= j < i ==> NotDone(s, AddressOf(req, offset), j)) && !NotDone(s, AddressOf(req, offset), i)
    ensures var at := ClientBefore(s, AddressOf(req, offset), i);
            var obs := Probe(s, req, offset).1;
            && obs.offset == offset && obs.stable == None && obs.allZero == None && obs.result.data == []
            && obs.Status() == if at.ctx(at.checks) == Some(DeadlineExceeded) then RW.Timeout else RW.TransportErr
  {
    hide RW.ReadArea, ReadTimes, ReadNumber, ClientBefore, Verdict;
    var addr, n, m := AddressOf(req, offset), Repeats(req), Further(req);
    NoReadYet(s, addr);
    if i < n {
      StoppedReads(s, addr, n, i, []);
    } else {
      ReadsFrom(s, addr, 0, n);
      var s1 := ClientBefore(s, addr, n);
      forall j | 0 <= j < i - n ensures NotDone(s1, addr, j) {
        ReadShifts(s, addr, n, j);
      }
      ClientShifts(s, addr, n, i - n);
      StoppedReads(s1, addr, m, i - n, []);
    }
  }

  /** A window that begins before the area, which a scan allows, is a transport error, and nothing is sent for it. */
  lemma WindowBeforeTheArea(s: State, req: RangeProbeRequest, offset: int)
    requires s.Valid() && offset < 0 && forall i :: 0 <= i < Repeats(req) + Further(req) ==> NotDone(s, AddressOf(req, offset), i)
    ensures var (s', obs) := Probe(s, req, offset);
            obs.Status() == RW.TransportErr && obs.result.data == [] && s'.link == s.link
  {
    hide Verdict, ReadTimes, ClientBefore;
    ProbeUsesEveryRead(s, req, offset);
    var addr, n, m := AddressOf(req, offset), Repeats(req), Further(req);
    NothingSentBefore(s, addr, n + m);
    forall i ensures ReadNumber(s, addr, i) == RW.ReadResult(RW.TransportErr, addr.size, 0, [], 0, None) {
    }
  }

  lemma {:induction false} NothingSentBefore(s: State, addr: RW.Address, i: nat)
    requires s.Valid() && addr.start < 0
    ensures ClientBefore(s, addr, i).link == s.link
  {
    if i > 0 {
      NothingSentBefore(s, addr, i - 1);
    }
  }

  method ReadRepeatedly(s: State, addr: RW.Address, n: nat) returns (s': State, r: Result<seq<RW.ReadResult>, CtxError>)
    requires s.Valid()
    ensures (s', r) == ReadTimes(s, addr, n, [])
  {
    hide RW.ReadArea;
    s' := s;
    var results: seq<RW.ReadResult> := [];
    for i := 0 to n
      invariant s'.Valid() && ReadTimes(s, addr, n, []) == ReadTimes(s', addr, n - i, results)
    {
      var (s1, done) := CtxErr(s');
      if done.Some? {
        return s1, Err(done.value);
      }
      var (s2, one) := RW.ReadArea(s1, addr);
      s', results := s2, results + [ResultOf(one, addr.size)];
    }
    return s', Ok(results);
  }

  method ProbeOneOffset(s: State, req: RangeProbeRequest, offset: int) returns (s': State, obs: Observation)
    requires s.Valid()
    ensures (s', obs) == Probe(s, req, offset)
  {
    hide ReadTimes;
    var addr := AddressOf(req, offset);
    var repeated, attempts;
    s', repeated := ReadRepeatedly(s, addr, Repeats(req));
    if repeated.Err? {
      return s', Observation(offset, StoppedRead(addr.size, repeated.error), None, None);
    }
    var result := repeated.value[|repeated.value| - 1];
    if |repeated.value| > 1 {
      var same := CompareWithFirst(repeated.value);
      if !same {
        result := result.(status := RW.Inconclusive);
      }
    }
    if req.retries > 0 {
      s', attempts := ReadRepeatedly(s', addr, req.retries + 1);
      if attempts.Err? {
        return s', Observation(offset, StoppedRead(addr.size, attempts.error), None, None);
      }
      var same := CompareWithFirst(attempts.value);
      if !same {
        result := result.(status := RW.Inconclusive);
      }
    }
    if |repeated.value| > 1 {
      var stable, allZero := JudgeRepeats(repeated.value);
      return s', Observation(offset, result, Some(stable), Some(allZero));
    }
    return s', Observation(offset, result, None, None);
  }

  /** The whole scan: on success the observations are the probes of the offsets in order, and the spans consolidate them. */
  method ProbeReadableRanges(s: State, req: RangeProbeRequest)
    returns (s': State, obs: seq<Observation>, spans: seq<Span>, summary: Summary, err: Option<ScanError>, ghost cuts: seq<nat>)
    requires s.Valid()
    ensures err == Some(InvalidRequest) <==> !WellFormed(req)
    ensures err == Some(ScanError.NotConnected) <==> WellFormed(req) && req.start < req.end && s.link.None?
    ensures err.Some? ==> obs == [] && spans == []
    ensures err == None ==> ProbeFrom(s, req, req.start, []) == (s', Some(obs))
    ensures err == Some(ScanError.Cancelled) ==> ProbeFrom(s, req, req.start, []) == (s', None)
    ensures err == None ==> Scan(obs, req.start, Stride(req)) && Reaches(|obs|, req.start, req.end, Stride(req))
    ensures err == None ==> MaximalPartition(obs, Stride(req), Width(req), spans, cuts) && summary == SummaryOf(spans)
  {
    hide Probe, MaximalPartition, SummaryOf;
    s', obs, spans, summary, err, cuts := s, [], [], Summary([], [], [], []), None, [0];
    if !WellFormed(req) {
      err := Some(InvalidRequest);
      return;
    }
    var step, probeSize := Stride(req), Width(req);
    var offsets := ProbeOffsets(req.start, req.end, step);
    if |offsets| > 0 && s.link.None? {
      err := Some(ScanError.NotConnected);
      return;
    }
    var found: seq<Observation> := [];
    for i := 0 to |offsets|
      invariant |found| == i && s'.Valid()
      invariant forall k :: 0 <= k < i ==> found[k].offset == offsets[k]
      invariant ProbeFrom(s, req, req.start, []) == ProbeFrom(s', req, req.start + i * step, found)
    {
      OffsetsAscend(i, |offsets| - 1, step);
      assert (i + 1) * step == i * step + step && (|offsets| - 1) * step == |offsets| * step - step;
      var (s1, done) := CtxErr(s');
      if done.Some? {
        s', err := s1, Some(ScanError.Cancelled);
        return;
      }
      var o;
      s', o := ProbeOneOffset(s1, req, offsets[i]);
      found := found + [o];
    }
    obs := found;
    spans, summary, cuts := ConsolidateSpans(obs, step, probeSize);
  }

  /** n steps from the start reach the end, and n - 1 do not. */
  predicate Reaches(n: nat, start: int, end: int, step: int) {
    n * step < end - start + step && end - start <= n * step
  }

  // ---------------------------------------------------------------- a partition of the observations

  lemma {:induction false} CutsAscend(obs: seq<Observation>, step: int, probeSize: int, spans: seq<Span>, cuts: seq<nat>, s: nat, t: nat)
    requires MaximalPartition(obs, step, probeSize, spans, cuts) && s < t < |cuts|
    ensures cuts[s] < cuts[t]
    decreases t
  {
    assert Cut(obs, step, probeSize, spans[t - 1], cuts, t - 1);
    if s < t - 1 {
      CutsAscend(obs, step, probeSize, spans, cuts, s, t - 1);
    }
  }

  predicate Inside(cuts: seq<nat>, s: nat, k: nat) {
    s + 1 < |cuts| && cuts[s] <= k < cuts[s + 1]
  }

  /** Every observation lies in exactly one span. */
  lemma EachObservationInOneSpan(obs: seq<Observation>, step: int, probeSize: int, spans: seq<Span>, cuts: seq<nat>, k: nat) returns (s: nat)
    requires MaximalPartition(obs, step, probeSize, spans, cuts) && k < |obs|
    ensures s < |spans| && Inside(cuts, s, k) && spans[s].status == obs[k].Status()
    ensures forall t :: 0 <= t < |spans| && Inside(cuts, t, k) ==> t == s
  {
    s := FindRun(cuts, k);
    assert Cut(obs, step, probeSize, spans[s], cuts, s);
    OneStatusInARun(obs, step, cuts[s], cuts[s + 1], k);
    forall t | 0 <= t < |spans| && Inside(cuts, t, k) ensures t == s {
      if s + 1 < t {
        CutsAscend(obs, step, probeSize, spans, cuts, s + 1, t);
      } else if t + 1 < s {
        CutsAscend(obs, step, probeSize, spans, cuts, t + 1, s);
      }
    }
  }

  lemma {:induction false} FindRun(cuts: seq<nat>, k: nat) returns (s: nat)
    requires |cuts| > 0 && cuts[0] <= k < cuts[|cuts| - 1]
    ensures Inside(cuts, s, k)
    decreases |cuts|
  {
    var last := |cuts| - 2;
    if cuts[last] <= k {
      s := last;
    } else {
      s := FindRun(cuts[..last + 1], k);
    }
  }

  /** Inside a run all observations have the first one's status, and their offsets go up in steps. */
  lemma {:induction false} OneStatusInARun(obs: seq<Observation>, step: int, i: nat, j: nat, k: nat)
    requires i <= k < j <= |obs| && forall n :: i < n < j ==> CarriesOn(obs, step, n)
    ensures obs[k].Status() == obs[i].Status() && obs[k].offset == obs[i].offset + (k - i) * step
    decreases k
  {
    if i < k {
      OneStatusInARun(obs, step, i, j, k - 1);
      assert CarriesOn(obs, step, k);
      assert (k - i) * step == (k - 1 - i) * step + step;
    }
  }

  predicate Slice(cuts: seq<nat>, s: nat, limit: nat) {
    s + 1 < |cuts| && cuts[s] <= cuts[s + 1] <= limit
  }

  predicate CutsInRange(cuts: seq<nat>, limit: nat) {
    |cuts| > 0 && forall s :: 0 <= s < |cuts| - 1 ==> Slice(cuts, s, limit)
  }

  lemma CutsPrefix(cuts: seq<nat>, limit: nat)
    requires CutsInRange(cuts, limit) && |cuts| > 1
    ensures CutsInRange(cuts[..|cuts| - 1], limit) && Slice(cuts, |cuts| - 2, limit)
  {
    var shorter := cuts[..|cuts| - 1];
    forall s | 0 <= s < |shorter| - 1 ensures Slice(shorter, s, limit) {
      assert Slice(cuts, s, limit);
    }
    assert Slice(cuts, |cuts| - 2, limit);
  }

  function Runs(obs: seq<Observation>, cuts: seq<nat>): seq<Observation>
    requires CutsInRange(cuts, |obs|)
  {
    if |cuts| == 1 then []
    else
      CutsPrefix(cuts, |obs|);
      Runs(obs, cuts[..|cuts| - 1]) + obs[cuts[|cuts| - 2]..cuts[|cuts| - 1]]
  }

  /** Concatenating the runs gives back the observation list. */
  lemma RunsConcatenate(obs: seq<Observation>, step: int, probeSize: int, spans: seq<Span>, cuts: seq<nat>)
    requires MaximalPartition(obs, step, probeSize, spans, cuts)
    ensures CutsInRange(cuts, |obs|)
    ensures Runs(obs, cuts) == obs
  {
    forall s | 0 <= s < |cuts| - 1 ensures Slice(cuts, s, |obs|) {
      assert Cut(obs, step, probeSize, spans[s], cuts, s);
    }
    RunsReach(obs, cuts);
  }

  lemma {:induction false} RunsReach(obs: seq<Observation>, cuts: seq<nat>)
    requires CutsInRange(cuts, |obs|) && cuts[0] == 0
    ensures cuts[|cuts| - 1] <= |obs| && Runs(obs, cuts) == obs[..cuts[|cuts| - 1]]
    decreases |cuts|
  {
    if |cuts| > 1 {
      CutsPrefix(cuts, |obs|);
      RunsReach(obs, cuts[..|cuts| - 1]);
      var a, b := cuts[|cuts| - 2], cuts[|cuts| - 1];
      assert obs[..a] + obs[a..b] == obs[..b];
    }
  }

  /** Neighbouring spans differ in status or are not one step apart: no two of them could have been merged. */
  lemma NeighboursCannotMerge(obs: seq<Observation>, step: int, probeSize: int, spans: seq<Span>, cuts: seq<nat>, s: nat)
    requires MaximalPartition(obs, step, probeSize, spans, cuts) && s + 1 < |spans|
    ensures spans[s].status != spans[s + 1].status || spans[s + 1].start != spans[s].end - probeSize + step
  {
    assert Cut(obs, step, probeSize, spans[s], cuts, s) && Cut(obs, step, probeSize, spans[s + 1], cuts, s + 1);
    OneStatusInARun(obs, step, cuts[s], cuts[s + 1], cuts[s + 1] - 1);
    assert !CarriesOn(obs, step, cuts[s + 1]);
  }

  /** The observations leave no choice: there is one maximal partition, so the spans are a function of the scan. */
  lemma {:induction false} PartitionIsUnique(obs: seq<Observation>, step: int, probeSize: int, a: seq<Span>, ca: seq<nat>, b: seq<Span>, cb: seq<nat>)
    requires MaximalPartition(obs, step, probeSize, a, ca) && MaximalPartition(obs, step, probeSize, b, cb)
    ensures a == b && ca == cb
  {
    SameCuts(obs, step, probeSize, a, ca, b, cb, if |a| < |b| then |a| else |b|);
    if |a| < |b| {
      CutsAscend(obs, step, probeSize, b, cb, |a|, |b|);
    } else if |b| < |a| {
      CutsAscend(obs, step, probeSize, a, ca, |b|, |a|);
    }
  }

  lemma {:induction false} SameCuts(obs: seq<Observation>, step: int, probeSize: int, a: seq<Span>, ca: seq<nat>, b: seq<Span>, cb: seq<nat>, n: nat)
    requires MaximalPartition(obs, step, probeSize, a, ca) && MaximalPartition(obs, step, probeSize, b, cb)
    requires n <= |a| && n <= |b|
    ensures ca[..n + 1] == cb[..n + 1] && a[..n] == b[..n]
    decreases n
  {
    hide SpanOf, CarriesOn;
    if n > 0 {
      SameCuts(obs, step, probeSize, a, ca, b, cb, n - 1);
      assert ca[n - 1] == ca[..n][n - 1] == cb[..n][n - 1] == cb[n - 1];
      NextCut(obs, step, probeSize, a, ca, b, cb, n);
      NextCut(obs, step, probeSize, b, cb, a, ca, n);
      OneSpanPerRun(a[n - 1], b[n - 1], obs[ca[n - 1]..ca[n]], probeSize);
      assert ca[..n + 1] == ca[..n] + [ca[n]] && cb[..n + 1] == cb[..n] + [cb[n]];
      assert a[..n] == a[..n - 1] + [a[n - 1]] && b[..n] == b[..n - 1] + [b[n - 1]];
    } else {
      assert ca[..1] == [0] == cb[..1];
    }
  }

  lemma NextCut(obs: seq<Observation>, step: int, probeSize: int, a: seq<Span>, ca: seq<nat>, b: seq<Span>, cb: seq<nat>, n: nat)
    requires MaximalPartition(obs, step, probeSize, a, ca) && MaximalPartition(obs, step, probeSize, b, cb)
    requires 0 < n <= |a| && n <= |b| && ca[n - 1] == cb[n - 1]
    ensures Cut(obs, step, probeSize, a[n - 1], ca, n - 1) && ca[n] >= cb[n]
  {
    assert Cut(obs, step, probeSize, a[n - 1], ca, n - 1) && Cut(obs, step, probeSize, b[n - 1], cb, n - 1);
    assert n < |a| ==> Cut(obs, step, probeSize, a[n], ca, n);
  }

  lemma OneSpanPerRun(a: Span, b: Span, run: seq<Observation>, probeSize: int)
    requires SpanOf(a, run, probeSize) && SpanOf(b, run, probeSize)
    ensures a == b
  {
    OneAgreedValue(Stables(run), a.stable, b.stable);
    OneAgreedValue(AllZeros(run), a.allZero, b.allZero);
  }

  lemma OneAgreedValue(values: seq<Option<bool>>, v: Option<bool>, w: Option<bool>)
    requires Agreed(values, v) && Agreed(values, w)
    ensures v == w
  {
  }

  // ---------------------------------------------------------------- the summary lists

  /** Where the spans of one status are, in order, and that they are all there. */
  ghost predicate ListOf(list: seq<Span>, spans: seq<Span>, status: RW.ReadStatus, at: seq<nat>) {
    && |at| == |list|
    && (forall i :: 0 <= i < |at| ==> at[i] < |spans| && list[i] == spans[at[i]])
    && (forall i, j :: 0 <= i < j < |at| ==> at[i] < at[j])
    && (forall k :: 0 <= k < |spans| ==> (spans[k].status == status <==> k in at))
  }

  lemma {:induction false} OnlyInOrder(spans: seq<Span>, status: RW.ReadStatus) returns (at: seq<nat>)
    ensures ListOf(Only(spans, status), spans, status, at)
    decreases |spans|
  {
    at := [];
    if spans != [] {
      var last := |spans| - 1;
      var before := OnlyInOrder(spans[..last], status);
      at := before + if spans[last].status == status then [last] else [];
      OneMoreInOrder(spans[..last], spans[last], status, Only(spans[..last], status), before);
      assert spans == spans[..last] + [spans[last]];
    }
  }

  lemma OneMoreInOrder(spans: seq<Span>, x: Span, status: RW.ReadStatus, list: seq<Span>, at: seq<nat>)
    requires ListOf(list, spans, status, at)
    ensures var found := x.status == status;
            ListOf(list + if found then [x] else [], spans + [x], status, at + if found then [|spans|] else [])
  {
    var found, more := x.status == status, spans + [x];
    var at', list' := at + (if found then [|spans|] else []), list + if found then [x] else [];
    forall i | 0 <= i < |at'| ensures at'[i] < |more| && list'[i] == more[at'[i]] {
    }
    forall k | 0 <= k < |more| ensures more[k].status == status <==> k in at' {
      assert k in at' <==> k in at || (found && k == |spans|);
    }
  }

  /**
   Which spans the summary lists where, each list in the order of the scan: readable the successes, empty the empty reads,
   inconclusive the inconclusive ones, and failed the rejected, then those timed out, then transport errors, protocol
   errors, and short reads.
   */
  lemma SummaryByStatus(spans: seq<Span>)
    returns (readable: seq<nat>, empty: seq<nat>, inconclusive: seq<nat>, failed: seq<(seq<Span>, RW.ReadStatus, seq<nat>)>)
    ensures ListOf(SummaryOf(spans).readable, spans, RW.Success, readable)
    ensures ListOf(SummaryOf(spans).empty, spans, RW.EmptyRead, empty)
    ensures ListOf(SummaryOf(spans).inconclusive, spans, RW.Inconclusive, inconclusive)
    ensures |failed| == 5 && forall i :: 0 <= i < 5 ==> ListOf(failed[i].0, spans, failed[i].1, failed[i].2)
    ensures [failed[0].1, failed[1].1, failed[2].1, failed[3].1, failed[4].1]
         == [RW.Rejected, RW.Timeout, RW.TransportErr, RW.ProtocolErr, RW.ShortRead]
    ensures SummaryOf(spans).failed == failed[0].0 + failed[1].0 + failed[2].0 + failed[3].0 + failed[4].0
  {
    readable := OnlyInOrder(spans, RW.Success);
    empty := OnlyInOrder(spans, RW.EmptyRead);
    inconclusive := OnlyInOrder(spans, RW.Inconclusive);
    var a := OnlyInOrder(spans, RW.Rejected);
    var b := OnlyInOrder(spans, RW.Timeout);
    var c := OnlyInOrder(spans, RW.TransportErr);
    var d := OnlyInOrder(spans, RW.ProtocolErr);
    var e := OnlyInOrder(spans, RW.ShortRead);
    failed := [(Only(spans, RW.Rejected), RW.Rejected, a), (Only(spans, RW.Timeout), RW.Timeout, b),
               (Only(spans, RW.TransportErr), RW.TransportErr, c), (Only(spans, RW.ProtocolErr), RW.ProtocolErr, d),
               (Only(spans, RW.ShortRead), RW.ShortRead, e)];
    hide ListOf, Only;
    FailedOfMore(spans, 0);
    FailedOfMore(spans, 1);
    FailedOfMore(spans, 2);
    FailedOfMore(spans, 3);
    FailedOfMore(spans, 4);
    assert FailedOf(spans, 0) == [];
  }

  lemma FailedOfMore(spans: seq<Span>, n: nat)
    requires n < |FAILED|
    ensures FailedOf(spans, n + 1) == FailedOf(spans, n) + Only(spans, FAILED[n])
  {
  }

  /** Together the four summary lists hold every span exactly once, if and only if every probe came to one of the eight named statuses. */
  lemma SummaryIsPermutationExactly(obs: seq<Observation>, step: int, probeSize: int, spans: seq<Span>, cuts: seq<nat>)
    requires MaximalPartition(obs, step, probeSize, spans, cuts)
    ensures Listed(SummaryOf(spans)) == multiset(spans) <==> forall k :: 0 <= k < |obs| ==> obs[k].Status() in KNOWN
  {
    ListedExactly(spans);
    hide MaximalPartition, Listed;
    if k :| 0 <= k < |obs| && obs[k].Status() !in KNOWN {
      var s := EachObservationInOneSpan(obs, step, probeSize, spans, cuts, k);
    } else {
      forall s | 0 <= s < |spans| ensures spans[s].status in KNOWN {
        SpanHasItsProbesStatus(obs, step, probeSize, spans, cuts, s);
      }
    }
  }

  lemma SpanHasItsProbesStatus(obs: seq<Observation>, step: int, probeSize: int, spans: seq<Span>, cuts: seq<nat>, s: nat)
    requires MaximalPartition(obs, step, probeSize, spans, cuts) && s < |spans|
    ensures s < |cuts| && cuts[s] < |obs| && spans[s].status == obs[cuts[s]].Status()
  {
    assert Cut(obs, step, probeSize, spans[s], cuts, s);
  }

  lemma ListedExactly(spans: seq<Span>)
    ensures Listed(SummaryOf(spans)) == multiset(spans) <==> forall s :: 0 <= s < |spans| ==> spans[s].status in KNOWN
  {
    forall x ensures Listed(SummaryOf(spans))[x] == if x.status in KNOWN then multiset(spans)[x] else 0 {
      ListedCount(spans, x);
    }
    if s :| 0 <= s < |spans| && spans[s].status !in KNOWN {
      assert spans[s] in multiset(spans) && Listed(SummaryOf(spans))[spans[s]] == 0;
    } else {
      forall x ensures Listed(SummaryOf(spans))[x] == multiset(spans)[x] {
        assert x in multiset(spans) ==> x in spans;
      }
    }
  }

  function Listed(summary: Summary): multiset<Span> {
    multiset(summary.readable) + multiset(summary.empty) + multiset(summary.failed) + multiset(summary.inconclusive)
  }

  lemma {:induction false} OnlyCount(spans: seq<Span>, status: RW.ReadStatus, x: Span)
    ensures multiset(Only(spans, status))[x] == if x.status == status then multiset(spans)[x] else 0
  {
    if spans != [] {
      var n := |spans| - 1;
      OnlyCount(spans[..n], status, x);
      assert spans == spans[..n] + [spans[n]];
    }
  }

  lemma {:induction false} FailedCount(spans: seq<Span>, n: nat, x: Span)
    requires n <= |FAILED|
    ensures multiset(FailedOf(spans, n))[x] == if x.status in FAILED[..n] then multiset(spans)[x] else 0
  {
    if n > 0 {
      hide Only;
      FailedCount(spans, n - 1, x);
      OnlyCount(spans, FAILED[n - 1], x);
      OneMoreFailed(n, x.status);
    }
  }

  lemma OneMoreFailed(n: nat, status: RW.ReadStatus)
    requires 0 < n <= |FAILED|
    ensures status in FAILED[..n] <==> status in FAILED[..n - 1] || status == FAILED[n - 1]
    ensures FAILED[n - 1] !in FAILED[..n - 1]
  {
    assert FAILED[..n] == FAILED[..n - 1] + [FAILED[n - 1]];
  }

  lemma ListedCount(spans: seq<Span>, x: Span)
    ensures Listed(SummaryOf(spans))[x] == if x.status in KNOWN then multiset(spans)[x] else 0
  {
    hide Only;
    ListedParts(spans, x, |FAILED|);
    KnownParts(x.status);
  }

  lemma KnownParts(status: RW.ReadStatus)
    ensures status in KNOWN <==> status in FAILED || status in [RW.Success, RW.EmptyRead, RW.Inconclusive]
    ensures RW.Success !in FAILED && RW.EmptyRead !in FAILED && RW.Inconclusive !in FAILED
  {
  }

  lemma ListedParts(spans: seq<Span>, x: Span, n: nat)
    requires n == |FAILED|
    ensures Listed(SummaryOf(spans))[x]
            == (if x.status == RW.Success then multiset(spans)[x] else 0) + (if x.status == RW.EmptyRead then multiset(spans)[x] else 0)
               + (if x.status in FAILED then multiset(spans)[x] else 0) + (if x.status == RW.Inconclusive then multiset(spans)[x] else 0)
  {
    hide Only, FailedOf;
    OnlyCount(spans, RW.Success, x);
    OnlyCount(spans, RW.EmptyRead, x);
    OnlyCount(spans, RW.Inconclusive, x);
    FailedCount(spans, n, x);
    assert FAILED[..n] == FAILED;
  }

  // ---------------------------------------------------------------- coverage

  /** Some probe that came to this status read byte b. */
  ghost predicate Probed(obs: seq<Observation>, probeSize: int, status: RW.ReadStatus, b: int) {
    exists k :: 0 <= k < |obs| && ProbeCovers(obs[k], probeSize, status, b)
  }

  predicate ProbeCovers(o: Observation, probeSize: int, status: RW.ReadStatus, b: int) {
    o.Status() == status && o.offset <= b < o.offset + probeSize
  }

  /** Some span of this status covers byte b. */
  ghost predicate Covered(spans: seq<Span>, status: RW.ReadStatus, b: int) {
    exists s :: 0 <= s < |spans| && SpanCovers(spans[s], status, b)
  }

  predicate SpanCovers(span: Span, status: RW.ReadStatus, b: int) {
    span.status == status && span.start <= b < span.end
  }

  /** Probes no further apart than they are long: the spans of each status cover exactly the bytes its probes read. */
  lemma SpansCoverTheProbes(obs: seq<Observation>, step: int, probeSize: int, spans: seq<Span>, cuts: seq<nat>, status: RW.ReadStatus, b: int)
    requires MaximalPartition(obs, step, probeSize, spans, cuts) && 1 <= step <= probeSize
    ensures Covered(spans, status, b) <==> Probed(obs, probeSize, status, b)
  {
    hide MaximalPartition, ProbeCovers, SpanCovers;
    if k :| 0 <= k < |obs| && ProbeCovers(obs[k], probeSize, status, b) {
      ProbedIsCovered(obs, step, probeSize, spans, cuts, status, b, k);
    }
    if s :| 0 <= s < |spans| && SpanCovers(spans[s], status, b) {
      CoveredIsProbed(obs, step, probeSize, spans, cuts, status, b, s);
    }
  }

  lemma CoveredIsProbed(obs: seq<Observation>, step: int, probeSize: int, spans: seq<Span>, cuts: seq<nat>, status: RW.ReadStatus, b: int, s: nat)
    requires MaximalPartition(obs, step, probeSize, spans, cuts) && 1 <= step <= probeSize
    requires s < |spans| && SpanCovers(spans[s], status, b)
    ensures Probed(obs, probeSize, status, b)
  {
    assert Cut(obs, step, probeSize, spans[s], cuts, s);
    var k := ProbeInRun(obs, step, probeSize, cuts[s], cuts[s + 1], b);
    OneStatusInARun(obs, step, cuts[s], cuts[s + 1], k);
    assert ProbeCovers(obs[k], probeSize, status, b);
  }

  /** This direction holds for every step: no probed byte is missing from the spans. */
  lemma ProbedIsCovered(obs: seq<Observation>, step: int, probeSize: int, spans: seq<Span>, cuts: seq<nat>, status: RW.ReadStatus, b: int, k: nat)
    requires MaximalPartition(obs, step, probeSize, spans, cuts) && step >= 1
    requires k < |obs| && ProbeCovers(obs[k], probeSize, status, b)
    ensures Covered(spans, status, b)
  {
    var s := EachObservationInOneSpan(obs, step, probeSize, spans, cuts, k);
    var i, j := cuts[s], cuts[s + 1];
    assert Cut(obs, step, probeSize, spans[s], cuts, s);
    OneStatusInARun(obs, step, i, j, k);
    OneStatusInARun(obs, step, i, j, j - 1);
    OffsetsAscend(k - i, j - 1 - i, step);
    OffsetsAscend(0, k - i, step);
    assert SpanCovers(spans[s], status, b);
  }

  lemma OffsetsAscend(m: nat, n: nat, step: int)
    requires m <= n && step >= 1
    ensures m * step <= n * step && m <= m * step
  {
    assert n * step == m * step + (n - m) * step;
  }

  /** The probe of a run whose window holds byte b: the last one that starts at or before it. */
  lemma {:induction false} ProbeInRun(obs: seq<Observation>, step: int, probeSize: int, i: nat, j: nat, b: int) returns (k: nat)
    requires i < j <= |obs| && 1 <= step <= probeSize && forall n :: i < n < j ==> CarriesOn(obs, step, n)
    requires obs[i].offset <= b < obs[j - 1].offset + probeSize
    ensures i <= k < j && obs[k].offset <= b < obs[k].offset + probeSize
    decreases j
  {
    if obs[j - 1].offset <= b {
      k := j - 1;
    } else {
      assert i < j - 1;
      assert CarriesOn(obs, step, j - 1);
      k := ProbeInRun(obs, step, probeSize, i, j - 1, b);
    }
  }

  /** A scan probes start, start + step, start + 2 * step, ... */
  ghost predicate Scan(obs: seq<Observation>, start: int, step: int) {
    forall k :: 0 <= k < |obs| ==> obs[k].offset == start + k * step
  }

  /** No observation carries on the one before it. */
  ghost predicate NothingCarriesOn(obs: seq<Observation>, step: int) {
    forall k :: 0 < k < |obs| ==> !CarriesOn(obs, step, k)
  }

  /** Then, and only then, every observation has a span of its own. */
  lemma NothingMergesExactly(obs: seq<Observation>, step: int, probeSize: int, spans: seq<Span>, cuts: seq<nat>)
    requires MaximalPartition(obs, step, probeSize, spans, cuts)
    ensures NothingCarriesOn(obs, step) <==> |spans| == |obs|
  {
    if |spans| == |obs| {
      forall k | 0 < k < |obs| ensures !CarriesOn(obs, step, k) {
        NoMergeMeansUnitCuts(obs, step, probeSize, spans, cuts, k);
        assert Cut(obs, step, probeSize, spans[k], cuts, k);
      }
    } else {
      var s := MergedSpan(obs, step, probeSize, spans, cuts, |spans|);
      assert Cut(obs, step, probeSize, spans[s], cuts, s);
      assert CarriesOn(obs, step, cuts[s] + 1);
    }
  }

  /**
   On a scan that is the whole truth: the spans cover what was probed, for every status and byte, if and only if the
   probes are no further apart than they are long or no probe carries on the one before it. With wider steps a merged
   span claims bytes nobody read.
   */
  lemma CoverageHoldsExactly(obs: seq<Observation>, start: int, step: int, probeSize: int, spans: seq<Span>, cuts: seq<nat>)
    requires MaximalPartition(obs, step, probeSize, spans, cuts) && Scan(obs, start, step) && step >= 1 && probeSize >= 1
    ensures (forall status, b :: Covered(spans, status, b) <==> Probed(obs, probeSize, status, b))
            <==> (step <= probeSize || NothingCarriesOn(obs, step))
  {
    NothingMergesExactly(obs, step, probeSize, spans, cuts);
    if step <= probeSize {
      forall status, b ensures Covered(spans, status, b) <==> Probed(obs, probeSize, status, b) {
        SpansCoverTheProbes(obs, step, probeSize, spans, cuts, status, b);
      }
    } else if |spans| == |obs| {
      SinglesCoverTheProbes(obs, step, probeSize, spans, cuts);
    } else {
      var status, b := MergedSpanHasGap(obs, start, step, probeSize, spans, cuts);
      assert !(Covered(spans, status, b) <==> Probed(obs, probeSize, status, b));
    }
  }

  lemma {:induction false} NoMergeMeansUnitCuts(obs: seq<Observation>, step: int, probeSize: int, spans: seq<Span>, cuts: seq<nat>, n: nat)
    requires MaximalPartition(obs, step, probeSize, spans, cuts) && n <= |spans|
    ensures cuts[n] >= n && |obs| - cuts[n] >= |spans| - n
  {
    if n > 0 {
      NoMergeMeansUnitCuts(obs, step, probeSize, spans, cuts, n - 1);
      assert Cut(obs, step, probeSize, spans[n - 1], cuts, n - 1);
    }
    SpansLeft(obs, step, probeSize, spans, cuts, n);
  }

  lemma {:induction false} SpansLeft(obs: seq<Observation>, step: int, probeSize: int, spans: seq<Span>, cuts: seq<nat>, n: nat)
    requires MaximalPartition(obs, step, probeSize, spans, cuts) && n <= |spans|
    ensures |obs| - cuts[n] >= |spans| - n
    decreases |spans| - n
  {
    if n < |spans| {
      SpansLeft(obs, step, probeSize, spans, cuts, n + 1);
      assert Cut(obs, step, probeSize, spans[n], cuts, n);
    }
  }

  lemma SinglesCoverTheProbes(obs: seq<Observation>, step: int, probeSize: int, spans: seq<Span>, cuts: seq<nat>)
    requires MaximalPartition(obs, step, probeSize, spans, cuts) && step >= 1 && |spans| == |obs|
    ensures forall status, b :: Covered(spans, status, b) <==> Probed(obs, probeSize, status, b)
  {
    hide MaximalPartition;
    forall status, b ensures Covered(spans, status, b) <==> Probed(obs, probeSize, status, b) {
      if k :| 0 <= k < |obs| && ProbeCovers(obs[k], probeSize, status, b) {
        ProbedIsCovered(obs, step, probeSize, spans, cuts, status, b, k);
      }
      if s :| 0 <= s < |spans| && SpanCovers(spans[s], status, b) {
        SingleIsItsProbe(obs, step, probeSize, spans, cuts, s);
        assert ProbeCovers(obs[s], probeSize, status, b);
      }
    }
  }

  lemma SingleIsItsProbe(obs: seq<Observation>, step: int, probeSize: int, spans: seq<Span>, cuts: seq<nat>, s: nat)
    requires MaximalPartition(obs, step, probeSize, spans, cuts) && |spans| == |obs| && s < |spans|
    ensures spans[s].status == obs[s].Status() && spans[s].start == obs[s].offset && spans[s].end == obs[s].offset + probeSize
  {
    assert Cut(obs, step, probeSize, spans[s], cuts, s);
    NoMergeMeansUnitCuts(obs, step, probeSize, spans, cuts, s);
    NoMergeMeansUnitCuts(obs, step, probeSize, spans, cuts, s + 1);
    assert cuts[s] == s && cuts[s + 1] == s + 1;
  }

  /** The byte just after the first probe of a merged run is in the span, but in no probe's window. */
  lemma MergedSpanHasGap(obs: seq<Observation>, start: int, step: int, probeSize: int, spans: seq<Span>, cuts: seq<nat>)
    returns (status: RW.ReadStatus, b: int)
    requires MaximalPartition(obs, step, probeSize, spans, cuts) && Scan(obs, start, step) && 1 <= probeSize < step && |spans| != |obs|
    ensures Covered(spans, status, b) && !Probed(obs, probeSize, status, b)
  {
    var s := MergedSpan(obs, step, probeSize, spans, cuts, |spans|);
    assert Cut(obs, step, probeSize, spans[s], cuts, s);
    var i, j := cuts[s], cuts[s + 1];
    status, b := spans[s].status, obs[i].offset + probeSize;
    OneStatusInARun(obs, step, i, j, j - 1);
    OffsetsAscend(1, j - 1 - i, step);
    assert SpanCovers(spans[s], status, b);
    forall k | 0 <= k < |obs| ensures !ProbeCovers(obs[k], probeSize, status, b) {
      assert obs[k].offset == start + k * step && obs[i].offset == start + i * step;
      if k <= i {
        assert i * step == k * step + (i - k) * step;
        OffsetsAscend(0, i - k, step);
      } else {
        assert k * step == i * step + (k - i) * step;
        OffsetsAscend(1, k - i, step);
      }
    }
  }

  lemma {:induction false} MergedSpan(obs: seq<Observation>, step: int, probeSize: int, spans: seq<Span>, cuts: seq<nat>, n: nat) returns (s: nat)
    requires MaximalPartition(obs, step, probeSize, spans, cuts) && n <= |spans| && cuts[n] != n
    ensures s < |spans| && cuts[s] + 1 < cuts[s + 1]
    decreases n
  {
    assert Cut(obs, step, probeSize, spans[n - 1], cuts, n - 1);
    if cuts[n - 1] == n - 1 {
      s := n - 1;
    } else {
      s := MergedSpan(obs, step, probeSize, spans, cuts, n - 1);
    }
  }

  /** With step equal to the probe size the spans abut and tile [start, start + |obs| * step). */
  lemma SpansTileTheScan(obs: seq<Observation>, start: int, step: int, spans: seq<Span>, cuts: seq<nat>)
    requires MaximalPartition(obs, step, step, spans, cuts) && Scan(obs, start, step) && step >= 1 && obs != []
    ensures spans != [] && spans[0].start == start && spans[|spans| - 1].end == start + |obs| * step
    ensures forall s :: 0 <= s < |spans| ==> spans[s].start < spans[s].end
    ensures forall s :: 0 < s < |spans| ==> spans[s - 1].end == spans[s].start && spans[s - 1].status != spans[s].status
  {
    forall s | 0 <= s < |spans| ensures spans[s].start == start + cuts[s] * step && spans[s].end == start + cuts[s + 1] * step && spans[s].start < spans[s].end {
      SpanOfScan(obs, start, step, spans, cuts, s);
    }
    forall s | 0 < s < |spans| ensures spans[s - 1].end == spans[s].start && spans[s - 1].status != spans[s].status {
      NeighboursCannotMerge(obs, step, step, spans, cuts, s - 1);
    }
  }

  lemma SpanOfScan(obs: seq<Observation>, start: int, step: int, spans: seq<Span>, cuts: seq<nat>, s: nat)
    requires MaximalPartition(obs, step, step, spans, cuts) && Scan(obs, start, step) && step >= 1 && s < |spans|
    ensures spans[s].start == start + cuts[s] * step && spans[s].end == start + cuts[s + 1] * step && spans[s].start < spans[s].end
  {
    assert Cut(obs, step, step, spans[s], cuts, s);
    var i, j := cuts[s], cuts[s + 1];
    assert obs[i].offset == start + i * step && obs[j - 1].offset == start + (j - 1) * step;
    assert j * step == (j - 1) * step + step;
    assert j * step == i * step + (j - i) * step;
    OffsetsAscend(1, j - i, step);
  }
}
