/** Chunked writes and reads of a whole range against the byte-array device, through every layer. */
module ReadAfterWrite {
  import opened Bytes
  import opened S7
  import opened PduReadWrite
  import opened Link
  import opened Exchange
  import opened ReadWrite
  import opened Plc
  import H = Handshake

  /** The memory with the first bytes of a write in place. */
  function WithPrefix(mem: Memory, key: (byte, u16), start: nat, written: seq<byte>): Memory {
    if InRange(mem, key, start, |written|) then Stored(mem, key, start, written) else mem
  }

  lemma PrefixGrows(mem: Memory, key: (byte, u16), start: nat, a: seq<byte>, b: seq<byte>)
    requires a == [] || InRange(mem, key, start, |a|)
    requires InRange(WithPrefix(mem, key, start, a), key, start + |a|, |b|)
    ensures InRange(mem, key, start, |a + b|)
    ensures Stored(WithPrefix(mem, key, start, a), key, start + |a|, b) == WithPrefix(mem, key, start, a + b)
  {
    var m := WithPrefix(mem, key, start, a);
    var was := mem[key];
    assert |m[key]| == |was|;
    assert m[key] == was[..start] + a + was[start + |a|..];
    assert m[key][..start + |a|] == was[..start] + a;
    assert m[key][start + |a| + |b|..] == was[start + |a + b|..];
    assert Stored(m, key, start + |a|, b)[key] == Stored(mem, key, start, a + b)[key];
  }

  /** Nothing outside the range is touched: other areas and other offsets keep their bytes. */
  lemma OnlyTheRangeChanges(mem: Memory, key: (byte, u16), start: nat, written: seq<byte>)
    ensures var m := WithPrefix(mem, key, start, written);
            && m.Keys == mem.Keys
            && (forall k :: k in mem && k != key ==> m[k] == mem[k])
            && (key in mem ==> |m[key]| == |mem[key]|)
            && (key in mem ==> forall i :: 0 <= i < |mem[key]| && !(start <= i < start + |written|) ==> m[key][i] == mem[key][i])
  {
  }

  ghost predicate WriteState(s: State, cfg: Config, mem: Memory, now: Memory, key: (byte, u16), start: nat, data: seq<byte>, offset: nat) {
    && Quiet(s, cfg, mem) && offset <= |data|
    && (offset > 0 ==> InRange(now, key, start, offset))
    && MemoryAfter(cfg, mem, Sent(s)) == WithPrefix(now, key, start, data[..offset])
  }

  ghost predicate Chunked(chunks: seq<nat>, db: int, start: int, last: int) {
    && (forall c :: c in chunks ==> 0 < c < 0x1_0000)
    && 0 <= db < 0x1_0000 && 0 <= start && start + Sum(chunks) == last <= ADDRESSABLE
  }

  /** How a write stands when it returns: `acked` bytes acknowledged, `landed` in the device's memory. */
  ghost predicate WriteResult(s': State, failed: Option<WriteError>, cfg: Config, mem: Memory, now: Memory,
                              key: (byte, u16), start: nat, data: seq<byte>, acked: nat, landed: nat) {
    && s'.Valid() && s'.link.Some? && acked <= landed <= |data|
    && MemoryAfter(cfg, mem, Sent(s')) == WithPrefix(now, key, start, data[..landed])
    && MemoryAfter(cfg, mem, Sent(s')[..s'.link.value.taken]) == WithPrefix(now, key, start, data[..acked])
    && (landed > 0 ==> InRange(now, key, start, landed))
    && (s'.link.value.Lag() == 0 ==> landed == acked)
    && (failed.None? ==> acked == |data| && Quiet(s', cfg, mem))
  }

  lemma ChunkedRest(chunks: seq<nat>, db: int, start: int, last: int)
    requires Chunked(chunks, db, start, last) && chunks != []
    ensures Chunked(chunks[1..], db, start + chunks[0], last) && Addressable(db, start, chunks[0]) && chunks[0] > 0
  {
    assert chunks[0] in chunks;
    forall c | c in chunks[1..] ensures c in chunks {}
  }

  lemma ChunkStep(s: State, cfg: Config, mem: Memory, now: Memory, area: byte, db: u16, start: nat, data: seq<byte>, offset: nat, n: nat)
    requires WriteState(s, cfg, mem, now, (area, db), start, data, offset) && offset + n <= |data| && 0 < n
    requires Addressable(db, start + offset, n)
    ensures var (s', failed) := WriteChunk(s, S7AnyAddress(area, db, start + offset, n), data[offset..offset + n]);
            if failed.None? then WriteState(s', cfg, mem, now, (area, db), start, data, offset + n)
            else
              || WriteResult(s', failed, cfg, mem, now, (area, db), start, data, offset, offset)
              || WriteResult(s', failed, cfg, mem, now, (area, db), start, data, offset, offset + n)
  {
    hide WriteChunk, MemoryAfter;
    var chunk := data[offset..offset + n];
    WriteChunkOnPlc(s, cfg, mem, S7AnyAddress(area, db, start + offset, n), chunk);
    var key := (area, db);
    assert data[..offset] + chunk == data[..offset + n];
    if InRange(WithPrefix(now, key, start, data[..offset]), key, start + offset, n) {
      PrefixGrows(now, key, start, data[..offset], chunk);
    }
    var (s', failed) := WriteChunk(s, S7AnyAddress(area, db, start + offset, n), chunk);
    if s'.link.value.Lag() == 0 {
      assert Sent(s')[..s'.link.value.taken] == Sent(s');
    }
  }

  lemma {:induction false} WriteChunksOnPlc(
      s: State, cfg: Config, mem: Memory, now: Memory, area: byte, db: u16, start: nat,
      data: seq<byte>, offset: nat, chunks: seq<nat>) returns (acked: nat, landed: nat)
    requires WriteState(s, cfg, mem, now, (area, db), start, data, offset)
    requires offset + Sum(chunks) == |data| && Chunked(chunks, db, start + offset, start + |data|)
    ensures var (s', failed) := WriteChunks(s, area, db, start, data, offset, chunks);
            WriteResult(s', failed, cfg, mem, now, (area, db), start, data, acked, landed)
    ensures exists i :: 0 <= i <= |chunks| && InFlight(chunks, offset, acked, landed, i)
    decreases |chunks|
  {
    hide WriteChunk, MemoryAfter;
    if chunks == [] {
      acked, landed := |data|, |data|;
      assert Sent(s)[..s.link.value.taken] == Sent(s);
      assert InFlight(chunks, offset, acked, landed, 0);
    } else {
      var n := chunks[0];
      ChunkedRest(chunks, db, start + offset, start + |data|);
      ChunkStep(s, cfg, mem, now, area, db, start, data, offset, n);
      var (s1, failed) := WriteChunk(s, S7AnyAddress(area, db, start + offset, n), data[offset..offset + n]);
      if failed.Some? {
        acked := offset;
        landed := if WriteResult(s1, failed, cfg, mem, now, (area, db), start, data, offset, offset) then offset else offset + n;
        assert InFlight(chunks, offset, acked, landed, 0);
      } else {
        acked, landed := WriteChunksOnPlc(s1, cfg, mem, now, area, db, start, data, offset + n, chunks[1..]);
        var i :| 0 <= i <= |chunks[1..]| && InFlight(chunks[1..], offset + n, acked, landed, i);
        assert chunks[..i + 1][1..] == chunks[1..][..i];
        assert InFlight(chunks, offset, acked, landed, i + 1);
      }
    }
  }

  /** The first i chunks are acknowledged, and the next one is in flight or nothing is. */
  ghost predicate InFlight(chunks: seq<nat>, offset: nat, acked: nat, landed: nat, i: nat)
    requires i <= |chunks|
  {
    && acked == offset + Sum(chunks[..i])
    && (landed == acked || (i < |chunks| && landed == acked + chunks[i]))
  }

  /** The wire fields can name the range; a PDU size comes from a 16-bit field. */
  ghost predicate Wide(s: State, addr: Address, n: nat) {
    && s.pduSize < 0x1_0000
    && 0 <= addr.dbNumber < 0x1_0000 && 0 <= addr.start && addr.start + n <= ADDRESSABLE
  }

  /**
   Begun on a connection that owes no reply, a write that fails leaves the acknowledged chunks in
   memory, plus the one chunk in flight or nothing; a write that succeeds leaves it all.
   */
  lemma AcknowledgedChunksLand(s: State, cfg: Config, mem: Memory, addr: Address, data: seq<byte>) returns (acked: nat, landed: nat)
    requires Quiet(s, cfg, mem) && Wide(s, addr, |data|) && addr.size >= 0
    ensures var (s', failed) := WriteArea(s, addr, data);
            WriteResult(s', failed, cfg, mem, MemoryAfter(cfg, mem, Sent(s)), (addr.area, addr.dbNumber), addr.start, data, acked, landed)
    ensures var chunks := Plan(|data|, MaxWritePayload(s.pduSize));
            exists i :: 0 <= i <= |chunks| && InFlight(chunks, 0, acked, landed, i)
  {
    hide MemoryAfter, WriteChunks;
    var now := MemoryAfter(cfg, mem, Sent(s));
    var (s1, done) := CtxErr(s);
    var key := (addr.area, addr.dbNumber);
    EmptyPrefix(now, key, addr.start, data);
    assert Sent(s)[..s.link.value.taken] == Sent(s);
    if done.Some? {
      acked, landed := 0, 0;
      assert InFlight(Plan(|data|, MaxWritePayload(s.pduSize)), 0, acked, landed, 0);
    } else {
      var chunks := Plan(|data|, MaxWritePayload(s.pduSize));
      PlanIsExact(|data|, MaxWritePayload(s.pduSize));
      acked, landed := WriteChunksOnPlc(s1, cfg, mem, now, addr.area, addr.dbNumber, addr.start, data, 0, chunks);
    }
  }

  lemma EmptyPrefix(mem: Memory, key: (byte, u16), start: nat, data: seq<byte>)
    ensures WithPrefix(mem, key, start, data[..0]) == mem
  {
    if key in mem && start <= |mem[key]| {
      assert mem[key][..start] + [] + mem[key][start..] == mem[key];
    }
  }

  // ---------------------------------------------------------------- writing, whatever is still unread

  /** So much of the data is in memory, and nothing else has changed. */
  ghost predicate Landed(s: State, cfg: Config, mem: Memory, now: Memory, key: (byte, u16), start: nat, data: seq<byte>, landed: nat) {
    && Wired(s, cfg, mem) && landed <= |data|
    && MemoryAfter(cfg, mem, Sent(s)) == WithPrefix(now, key, start, data[..landed])
    && (landed > 0 ==> InRange(now, key, start, landed))
  }

  /** The area does not exist or ends before this offset. */
  predicate Beyond(now: Memory, key: (byte, u16), at: nat) {
    key !in now || |now[key]| < at
  }

  /** One chunk more: it lands if everything before it did and its range exists; past the end of the area nothing lands any more. */
  lemma ChunkLands(s: State, cfg: Config, mem: Memory, now: Memory, area: byte, db: u16, start: nat,
                   data: seq<byte>, offset: nat, n: nat, landed: nat) returns (landed': nat)
    requires Landed(s, cfg, mem, now, (area, db), start, data, landed) && offset + n <= |data| && 0 < n
    requires landed == offset || (landed < offset && Beyond(now, (area, db), start + offset))
    requires Addressable(db, start + offset, n) && n <= MAX_ITEM
    ensures var (s', failed) := WriteChunk(s, S7AnyAddress(area, db, start + offset, n), data[offset..offset + n]);
            && Landed(s', cfg, mem, now, (area, db), start, data, landed')
            && (landed' == landed || landed' == offset + n)
            && (failed.None? ==> landed' == offset + n || (landed' < offset + n && Beyond(now, (area, db), start + offset + n)))
  {
    hide WriteChunk, MemoryAfter;
    var chunk, key := data[offset..offset + n], (area, db);
    var addr := S7AnyAddress(area, db, start + offset, n);
    WriteChunkLands(s, cfg, mem, addr, chunk);
    var was := WithPrefix(now, key, start, data[..landed]);
    OnlyTheRangeChanges(now, key, start, data[..landed]);
    landed' := landed;
    if InRange(was, key, start + offset, n) && MemoryAfter(cfg, mem, Sent(WriteChunk(s, addr, chunk).0)) != was {
      assert data[..offset] + chunk == data[..offset + n];
      PrefixGrows(now, key, start, data[..offset], chunk);
      landed' := offset + n;
    } else if InRange(was, key, start + offset, n) && WriteChunk(s, addr, chunk).1.None? {
      // stored, and the same bytes were there before
      assert data[..offset] + chunk == data[..offset + n];
      PrefixGrows(now, key, start, data[..offset], chunk);
      landed' := offset + n;
    }
  }

  lemma {:induction false} ChunksLand(
      s: State, cfg: Config, mem: Memory, now: Memory, area: byte, db: u16, start: nat,
      data: seq<byte>, offset: nat, chunks: seq<nat>, landed: nat) returns (landed': nat)
    requires Landed(s, cfg, mem, now, (area, db), start, data, landed)
    requires landed == offset || (landed < offset && Beyond(now, (area, db), start + offset))
    requires offset + Sum(chunks) == |data| && Chunked(chunks, db, start + offset, start + |data|)
    requires forall c :: c in chunks ==> c <= MAX_ITEM
    ensures var (s', failed) := WriteChunks(s, area, db, start, data, offset, chunks);
            && Landed(s', cfg, mem, now, (area, db), start, data, landed')
            && (failed.None? ==> landed' == |data| || Beyond(now, (area, db), start + |data|))
    ensures landed' == landed || exists i :: 0 < i <= |chunks| && landed' == offset + Sum(chunks[..i])
    decreases |chunks|
  {
    hide WriteChunk, MemoryAfter, Beyond, WithPrefix;
    landed' := landed;
    if chunks != [] {
      var n := chunks[0];
      ChunkedRest(chunks, db, start + offset, start + |data|);
      assert n in chunks && forall c :: c in chunks[1..] ==> c in chunks;
      var landed1 := ChunkLands(s, cfg, mem, now, area, db, start, data, offset, n, landed);
      var (s1, failed) := WriteChunk(s, S7AnyAddress(area, db, start + offset, n), data[offset..offset + n]);
      OneChunk(chunks);
      landed' := landed1;
      if failed.None? {
        landed' := ChunksLand(s1, cfg, mem, now, area, db, start, data, offset + n, chunks[1..], landed1);
        if landed' != landed1 {
          var i :| 0 < i <= |chunks[1..]| && landed' == offset + n + Sum(chunks[1..][..i]);
          assert chunks[..i + 1][1..] == chunks[1..][..i];
          assert landed' == offset + Sum(chunks[..i + 1]);
        }
      }
    }
  }

  lemma OneChunk(chunks: seq<nat>)
    requires chunks != []
    ensures Sum(chunks[..1]) == chunks[0]
  {
    assert chunks[..1] == [chunks[0]] && [chunks[0]][1..] == [];
  }

  /** The chunks of such a transfer are no longer than an item can be. */
  predicate Writable(pduSize: nat, n: nat) {
    n <= MAX_ITEM || MaxWritePayload(pduSize) <= MAX_ITEM
  }

  predicate Readable(pduSize: nat, n: nat) {
    n <= MAX_ITEM || MaxReadData(pduSize) <= MAX_ITEM
  }

  lemma SmallChunks(total: nat, max: int)
    requires max >= 1 && (total <= MAX_ITEM || max <= MAX_ITEM)
    ensures forall c :: c in Plan(total, max) ==> c <= MAX_ITEM
  {
    PlanIsExact(total, max);
    if total <= max {
      assert forall c :: c in Plan(total, max) ==> c == total;
    }
  }

  /** So far the write has put a whole number of chunks in place, and if it is reported as done, all of them or none could be. */
  ghost predicate WriteLanded(s: State, s': State, failed: Option<WriteError>, cfg: Config, mem: Memory,
                              addr: Address, data: seq<byte>, landed: nat)
    requires s.link.Some? && 0 <= addr.dbNumber < 0x1_0000 && 0 <= addr.start
  {
    var key, now := (addr.area, addr.dbNumber), MemoryAfter(cfg, mem, Sent(s));
    var chunks := Plan(|data|, MaxWritePayload(s.pduSize));
    && Landed(s', cfg, mem, now, key, addr.start, data, landed)
    && (exists i :: 0 <= i <= |chunks| && landed == Sum(chunks[..i]))
    && (failed.None? ==> landed == |data| || Beyond(now, key, addr.start + |data|))
  }

  /**
   Whatever the link does and whatever replies were unread before: the memory is the old one with a
   prefix of the data in place, a whole number of chunks; a write reported as done has landed whole,
   unless its range does not exist. Only where a chunk can be too long for its bit length must the next
   reference be one that no unread reply carries.
   */
  lemma WriteLandsAsPrefix(s: State, cfg: Config, mem: Memory, addr: Address, data: seq<byte>) returns (landed: nat)
    requires Wired(s, cfg, mem) && Wide(s, addr, |data|) && addr.size >= 0
    requires Writable(s.pduSize, |data|) || s.link.value.Lag() == 0 || StaleRefused(s)
    ensures WriteLanded(s, WriteArea(s, addr, data).0, WriteArea(s, addr, data).1, cfg, mem, addr, data, landed)
  {
    hide WriteArea, MemoryAfter, WriteLanded;
    if Writable(s.pduSize, |data|) {
      landed := SmallWriteLands(s, cfg, mem, addr, data);
    } else if s.link.value.Lag() == 0 {
      landed := QuietWriteLands(s, cfg, mem, addr, data);
    } else {
      landed := LaggedWriteLands(s, cfg, mem, addr, data);
    }
  }

  lemma SmallWriteLands(s: State, cfg: Config, mem: Memory, addr: Address, data: seq<byte>) returns (landed: nat)
    requires Wired(s, cfg, mem) && Wide(s, addr, |data|) && addr.size >= 0 && Writable(s.pduSize, |data|)
    ensures WriteLanded(s, WriteArea(s, addr, data).0, WriteArea(s, addr, data).1, cfg, mem, addr, data, landed)
  {
    hide MemoryAfter, WriteChunks;
    var now := MemoryAfter(cfg, mem, Sent(s));
    var (s1, done) := CtxErr(s);
    EmptyPrefix(now, (addr.area, addr.dbNumber), addr.start, data);
    var chunks := Plan(|data|, MaxWritePayload(s.pduSize));
    PlanIsExact(|data|, MaxWritePayload(s.pduSize));
    SmallChunks(|data|, MaxWritePayload(s.pduSize));
    assert chunks[..0] == [] && Sum(chunks[..0]) == 0;
    landed := 0;
    if done.None? {
      landed := ChunksLand(s1, cfg, mem, now, addr.area, addr.dbNumber, addr.start, data, 0, chunks, 0);
      if landed != 0 {
        var i :| 0 < i <= |chunks| && landed == 0 + Sum(chunks[..i]);
        assert landed == Sum(chunks[..i]);
      }
    }
  }

  lemma QuietWriteLands(s: State, cfg: Config, mem: Memory, addr: Address, data: seq<byte>) returns (landed: nat)
    requires Quiet(s, cfg, mem) && Wide(s, addr, |data|) && addr.size >= 0
    ensures WriteLanded(s, WriteArea(s, addr, data).0, WriteArea(s, addr, data).1, cfg, mem, addr, data, landed)
  {
    hide MemoryAfter, WriteArea;
    var acked;
    acked, landed := AcknowledgedChunksLand(s, cfg, mem, addr, data);
    WriteKeepsWire(s, cfg, mem, addr, data);
    var chunks := Plan(|data|, MaxWritePayload(s.pduSize));
    var i :| 0 <= i <= |chunks| && InFlight(chunks, 0, acked, landed, i);
    if landed != acked {
      assert chunks[..i + 1] == chunks[..i] + [chunks[i]];
      SumAppend(chunks[..i], chunks[i]);
      assert landed == Sum(chunks[..i + 1]);
    }
  }

  lemma {:induction false} SumAppend(chunks: seq<nat>, n: nat)
    ensures Sum(chunks + [n]) == Sum(chunks) + n
    decreases |chunks|
  {
    if chunks == [] {
      assert [] + [n] == [n] && [n][1..] == [];
    } else {
      assert (chunks + [n])[1..] == chunks[1..] + [n];
      SumAppend(chunks[1..], n);
    }
  }

  /** With a reply unread that cannot be taken for the write's, only its first chunk can be sent. */
  lemma LaggedWriteLands(s: State, cfg: Config, mem: Memory, addr: Address, data: seq<byte>) returns (landed: nat)
    requires Wired(s, cfg, mem) && Wide(s, addr, |data|) && addr.size >= 0 && s.link.value.Lag() > 0 && StaleRefused(s)
    ensures WriteLanded(s, WriteArea(s, addr, data).0, WriteArea(s, addr, data).1, cfg, mem, addr, data, landed)
  {
    hide MemoryAfter, WriteChunk;
    var now, key := MemoryAfter(cfg, mem, Sent(s)), (addr.area, addr.dbNumber);
    var (s1, done) := CtxErr(s);
    EmptyPrefix(now, key, addr.start, data);
    var chunks := Plan(|data|, MaxWritePayload(s.pduSize));
    PlanIsExact(|data|, MaxWritePayload(s.pduSize));
    assert chunks[..0] == [] && Sum(chunks[..0]) == 0;
    landed := 0;
    if done.None? && data != [] {
      var n := chunks[0];
      OneChunk(chunks);
      assert n in chunks;
      var a, chunk := S7AnyAddress(addr.area, addr.dbNumber, addr.start + 0, n), data[0..0 + n];
      LaggedWriteChunkFails(s1, a, chunk);
      WriteChunkLands(s1, cfg, mem, a, chunk);
      var s2 := WriteChunk(s1, a, chunk).0;
      assert WriteArea(s, addr, data) == (s2, WriteChunk(s1, a, chunk).1);
      if MemoryAfter(cfg, mem, Sent(s2)) != now {
        landed := n;
      }
    }
  }

  lemma WriteKeepsWire(s: State, cfg: Config, mem: Memory, addr: Address, data: seq<byte>)
    requires Wired(s, cfg, mem) && addr.size >= 0 && 0 <= addr.dbNumber && 0 <= addr.start
    ensures Wired(WriteArea(s, addr, data).0, cfg, mem)
  {
    PlanIsExact(|data|, MaxWritePayload(s.pduSize));
    hide WriteChunks;
    var s1 := CtxErr(s).0;
    WriteChunksKeepWire(s1, cfg, mem, addr.area, addr.dbNumber, addr.start, data, 0, Plan(|data|, MaxWritePayload(s.pduSize)));
  }

  lemma {:induction false} WriteChunksKeepWire(
      s: State, cfg: Config, mem: Memory, area: byte, db: int, start: int, data: seq<byte>, offset: nat, chunks: seq<nat>)
    requires Wired(s, cfg, mem) && offset + Sum(chunks) == |data|
    ensures Wired(WriteChunks(s, area, db, start, data, offset, chunks).0, cfg, mem)
    decreases |chunks|
  {
    hide WriteChunk;
    if chunks != [] {
      var n := chunks[0];
      var a, chunk := S7AnyAddress(area, db, start + offset, n), data[offset..offset + n];
      WriteChunkKeepsWire(s, cfg, mem, a, chunk);
      WriteChunksKeepWire(WriteChunk(s, a, chunk).0, cfg, mem, area, db, start, data, offset + n, chunks[1..]);
    }
  }

  lemma WriteChunkKeepsWire(s: State, cfg: Config, mem: Memory, addr: S7AnyAddress, chunk: seq<byte>)
    requires Wired(s, cfg, mem)
    ensures Wired(WriteChunk(s, addr, chunk).0, cfg, mem)
  {
    hide WriteRequest, Interpret;
  }

  // ---------------------------------------------------------------- reading

  ghost predicate ReadOutcome(s': State, r: ReadResult, cfg: Config, mem: Memory, now: Memory,
                              key: (byte, u16), offset: nat, n: nat, before: seq<byte>) {
    && s'.Valid() && s'.link.Some? && MemoryAfter(cfg, mem, Sent(s')) == now
    && (r.status == Success ==>
          && (n > 0 ==> InRange(now, key, offset, n))
          && r.data == before + (if n > 0 then now[key][offset..offset + n] else []))
  }

  lemma ReadOutcomeExtends(s': State, r: ReadResult, cfg: Config, mem: Memory, now: Memory,
                           key: (byte, u16), offset: nat, n: nat, rest: nat, before: seq<byte>)
    requires InRange(now, key, offset, n)
    requires ReadOutcome(s', r, cfg, mem, now, key, offset + n, rest, before + now[key][offset..offset + n]) && n > 0
    ensures ReadOutcome(s', r, cfg, mem, now, key, offset, n + rest, before)
  {
    hide MemoryAfter;
    if rest > 0 && InRange(now, key, offset + n, rest) {
      assert now[key][offset..offset + n] + now[key][offset + n..offset + n + rest] == now[key][offset..offset + n + rest];
    }
    assert before + now[key][offset..offset + n] + [] == before + now[key][offset..offset + n];
  }

  lemma {:induction false} ReadChunksOnPlc(
      s: State, cfg: Config, mem: Memory, area: byte, db: u16, offset: nat, chunks: seq<nat>, result: seq<byte>, requested: int)
    requires Quiet(s, cfg, mem) && Chunked(chunks, db, offset, offset + Sum(chunks))
    ensures var (s', r) := ReadChunks(s, area, db, offset, chunks, result, requested);
            ReadOutcome(s', r, cfg, mem, MemoryAfter(cfg, mem, Sent(s)), (area, db), offset, Sum(chunks), result)
    decreases |chunks|
  {
    hide ReadChunk, MemoryAfter;
    if chunks == [] {
      assert result + [] == result;
    } else {
      var n, key, now := chunks[0], (area, db), MemoryAfter(cfg, mem, Sent(s));
      ChunkedRest(chunks, db, offset, offset + Sum(chunks));
      var addr := S7AnyAddress(area, db, offset, n);
      ReadChunkOnPlc(s, cfg, mem, addr);
      EndsNeverSucceeds(s, addr);
      var (s1, got) := ReadChunk(s, addr);
      if got.Bytes? {
        ReadChunksOnPlc(s1, cfg, mem, area, db, offset + n, chunks[1..], result + got.data, requested);
        var (s', r) := ReadChunks(s1, area, db, offset + n, chunks[1..], result + got.data, requested);
        ReadOutcomeExtends(s', r, cfg, mem, now, key, offset, n, Sum(chunks[1..]), result);
      }
    }
  }

  lemma {:induction false} ReadChunksLeaveMemory(
      s: State, cfg: Config, mem: Memory, area: byte, db: int, offset: int, chunks: seq<nat>, result: seq<byte>, requested: int)
    requires Wired(s, cfg, mem)
    ensures var s' := ReadChunks(s, area, db, offset, chunks, result, requested).0;
            Wired(s', cfg, mem) && MemoryAfter(cfg, mem, Sent(s')) == MemoryAfter(cfg, mem, Sent(s))
    decreases |chunks|
  {
    hide ReadChunk, MemoryAfter;
    if chunks != [] {
      var addr := S7AnyAddress(area, db, offset, chunks[0]);
      ReadChunkLeavesMemory(s, cfg, mem, addr);
      var (s1, got) := ReadChunk(s, addr);
      if got.Bytes? {
        ReadChunksLeaveMemory(s1, cfg, mem, area, db, offset + chunks[0], chunks[1..], result + got.data, requested);
      }
    }
  }

  /** No read changes the device, whatever its range, the link, and the replies unread before. */
  lemma ReadLeavesMemory(s: State, cfg: Config, mem: Memory, addr: Address)
    requires Wired(s, cfg, mem)
    ensures var s' := ReadArea(s, addr).0;
            Wired(s', cfg, mem) && MemoryAfter(cfg, mem, Sent(s')) == MemoryAfter(cfg, mem, Sent(s))
  {
    if ValidateAddress(addr).None? {
      ReadChunksLeaveMemory(s, cfg, mem, addr.area, addr.dbNumber, addr.start, Plan(addr.size, MaxReadData(s.pduSize)), [], addr.size);
    }
  }

  /**
   If a read reports success its data is the requested range, whatever the link did; of the replies
   unread before it only that the next reference cannot be theirs.
   */
  lemma ReadSeesMemory(s: State, cfg: Config, mem: Memory, addr: Address)
    requires Wired(s, cfg, mem) && addr.size >= 0 && Wide(s, addr, addr.size)
    requires s.link.value.Lag() == 0 || StaleRefused(s)
    ensures var r := ReadArea(s, addr).1;
            var key, now := (addr.area, addr.dbNumber), MemoryAfter(cfg, mem, Sent(s));
            && r.Ok?
            && (r.value.status == Success && addr.size > 0 ==>
                  InRange(now, key, addr.start, addr.size) && r.value.data == now[key][addr.start..addr.start + addr.size])
            && (addr.size == 0 ==> r.value.status == Success && r.value.data == [])
  {
    hide MemoryAfter, ReadArea, Echoes;
    EmptyReadSucceeds(s, addr);
    if addr.size > 0 {
      if s.link.value.Lag() == 0 {
        ReadSeesQuietMemory(s, cfg, mem, addr);
      } else {
          LaggedReadFails(s, addr);
      }
    }
  }

  lemma ReadSeesQuietMemory(s: State, cfg: Config, mem: Memory, addr: Address)
    requires Quiet(s, cfg, mem) && addr.size > 0 && Wide(s, addr, addr.size)
    ensures var r := ReadArea(s, addr).1;
            var key, now := (addr.area, addr.dbNumber), MemoryAfter(cfg, mem, Sent(s));
            && r.Ok?
            && (r.value.status == Success ==>
                  InRange(now, key, addr.start, addr.size) && r.value.data == now[key][addr.start..addr.start + addr.size])
  {
    hide MemoryAfter, ReadChunks;
    PlanIsExact(addr.size, MaxReadData(s.pduSize));
    ReadChunksOnPlc(s, cfg, mem, addr.area, addr.dbNumber, addr.start, Plan(addr.size, MaxReadData(s.pduSize)), [], addr.size);
  }

  lemma EmptyReadSucceeds(s: State, addr: Address)
    requires s.Valid()
    ensures ValidateAddress(addr).None? && addr.size == 0 ==>
              var r := ReadArea(s, addr).1; r.Ok? && r.value.status == Success && r.value.data == []
  {
  }

  /**
   Read after write: whenever a write reports no error and the read of the same range that follows
   reports success, the read returns exactly the bytes written and the rest of memory is as before.
   */
  lemma ReadAfterWrite(s: State, cfg: Config, mem: Memory, addr: Address, data: seq<byte>)
    requires Wired(s, cfg, mem) && addr.size == |data| && Wide(s, addr, |data|)
    requires s.link.value.Lag() == 0 || StaleRefused(s)
    ensures var (s1, failed) := WriteArea(s, addr, data);
            var (s2, r) := ReadArea(s1, addr);
            var key, now := (addr.area, addr.dbNumber), MemoryAfter(cfg, mem, Sent(s));
            failed.None? && r.Ok? && r.value.status == Success ==>
              && r.value.data == data
              && s2.link.Some? && MemoryAfter(cfg, mem, Sent(s2)) == WithPrefix(now, key, addr.start, data)
  {
    hide MemoryAfter, WriteArea, ReadArea;
    if s.link.value.Lag() == 0 {
      ReadAfterQuietWrite(s, cfg, mem, addr, data);
    } else if data != [] {
      LaggedWriteFails(s, addr, data);
    } else {
      var landed := WriteLandsAsPrefix(s, cfg, mem, addr, data);
      var s1 := WriteArea(s, addr, data).0;
      ReadLeavesMemory(s1, cfg, mem, addr);
      EmptyReadSucceeds(s1, addr);
      assert data[..landed] == data;
    }
  }

  lemma ReadAfterQuietWrite(s: State, cfg: Config, mem: Memory, addr: Address, data: seq<byte>)
    requires Quiet(s, cfg, mem) && addr.size == |data| && Wide(s, addr, |data|)
    ensures var (s1, failed) := WriteArea(s, addr, data);
            var (s2, r) := ReadArea(s1, addr);
            var key, now := (addr.area, addr.dbNumber), MemoryAfter(cfg, mem, Sent(s));
            failed.None? && r.Ok? && r.value.status == Success ==>
              && r.value.data == data
              && s2.link.Some? && MemoryAfter(cfg, mem, Sent(s2)) == WithPrefix(now, key, addr.start, data)
  {
    hide MemoryAfter, WriteArea, ReadArea;
    var acked, landed := AcknowledgedChunksLand(s, cfg, mem, addr, data);
    var (s1, failed) := WriteArea(s, addr, data);
    if failed.None? {
      ReadSeesMemory(s1, cfg, mem, addr);
      ReadLeavesMemory(s1, cfg, mem, addr);
      assert data[..|data|] == data;
      var key, now := (addr.area, addr.dbNumber), MemoryAfter(cfg, mem, Sent(s));
      if data != [] {
        var m := WithPrefix(now, key, addr.start, data);
        assert m[key][addr.start..addr.start + |data|] == data;
      }
    }
  }

  // ---------------------------------------------------------------- and on a working link both succeed

  /** From now on the link delivers everything and the context is not done. */
  ghost predicate Calm(s: State) {
    && s.link.Some? && (forall n :: n >= s.link.value.clock ==> s.link.value.env.io(n) == Delivered)
    && (forall n :: n >= s.checks ==> s.ctx(n) == None)
  }

  lemma CalmCall(s: State, cfg: Config, mem: Memory, req: seq<byte>)
    requires Quiet(s, cfg, mem) && Calm(s) && FitsPDU(s.pduSize, |req|) && |req| <= MAX_USER_DATA
    ensures var (s', r) := Call(s, req);
            && Quiet(s', cfg, mem) && Calm(s') && Sent(s') == Sent(s) + [DT(req)]
            && r == Interpret(Act(cfg, MemoryAfter(cfg, mem, Sent(s)), DT(req)).1, NextRef(s))
  {
    hide Act, Interpret, MemoryAfter;
    CallOnQuiet(s, cfg, mem, req);
    assert s.link.value.env.io(s.link.value.clock) == Delivered;
  }

  lemma CalmWriteChunk(s: State, cfg: Config, mem: Memory, addr: S7AnyAddress, chunk: seq<byte>)
    requires Quiet(s, cfg, mem) && Calm(s) && WriteChunkFits(s.pduSize, |chunk|)
    requires Addressable(addr.dbNumber, addr.start, addr.size) && addr.size == |chunk|
    requires Serves(MemoryAfter(cfg, mem, Sent(s)), (addr.area, addr.dbNumber), addr.start, |chunk|)
    ensures WriteChunk(s, addr, chunk).1.None? && Calm(WriteChunk(s, addr, chunk).0)
  {
    hide Act, Interpret, MemoryAfter, Call, WriteRequest, ParseWriteVarResponse;
    var (s1, done) := CtxErr(s);
    var req := WriteRequest(NextRef(s1), addr, chunk);
    RequestSizes(NextRef(s1), addr, chunk);
    CalmCall(s1, cfg, mem, req);
    PlcAnswersWrite(cfg, MemoryAfter(cfg, mem, Sent(s)), NextRef(s1), addr, chunk);
  }

  lemma CalmReadChunk(s: State, cfg: Config, mem: Memory, addr: S7AnyAddress)
    requires Quiet(s, cfg, mem) && Calm(s) && FitsPDU(s.pduSize, READ_VAR_REQUEST_OVERHEAD)
    requires Addressable(addr.dbNumber, addr.start, addr.size)
    requires Serves(MemoryAfter(cfg, mem, Sent(s)), (addr.area, addr.dbNumber), addr.start, addr.size)
    ensures ReadChunk(s, addr).1.Bytes? && Calm(ReadChunk(s, addr).0)
  {
    hide Act, Interpret, MemoryAfter, Call, ReadRequest, OfReadReply;
    var (s1, done) := CtxErr(s);
    var req := ReadRequest(NextRef(s1), [addr]);
    RequestSizes(NextRef(s1), addr, []);
    CalmCall(s1, cfg, mem, req);
    PlcAnswersRead(cfg, MemoryAfter(cfg, mem, Sent(s)), NextRef(s1), addr);
  }

  lemma {:induction false} CalmWriteChunks(
      s: State, cfg: Config, mem: Memory, now: Memory, area: byte, db: u16, start: nat,
      data: seq<byte>, offset: nat, chunks: seq<nat>)
    requires WriteState(s, cfg, mem, now, (area, db), start, data, offset) && Calm(s)
    requires offset + Sum(chunks) == |data| && Chunked(chunks, db, start + offset, start + |data|)
    requires InRange(now, (area, db), start, |data|)
    requires forall c :: c in chunks ==> WriteChunkFits(s.pduSize, c) && c <= MAX_ITEM
    ensures WriteChunks(s, area, db, start, data, offset, chunks).1.None?
    ensures Calm(WriteChunks(s, area, db, start, data, offset, chunks).0)
    decreases |chunks|
  {
    hide WriteChunk, MemoryAfter;
    if chunks != [] {
      var n := chunks[0];
      ChunkedRest(chunks, db, start + offset, start + |data|);
      assert n in chunks;
      var addr := S7AnyAddress(area, db, start + offset, n);
      CalmWriteChunk(s, cfg, mem, addr, data[offset..offset + n]);
      ChunkStep(s, cfg, mem, now, area, db, start, data, offset, n);
      forall c | c in chunks[1..] ensures c in chunks {}
      CalmWriteChunks(WriteChunk(s, addr, data[offset..offset + n]).0, cfg, mem, now, area, db, start, data, offset + n, chunks[1..]);
    }
  }

  lemma {:induction false} CalmReadChunks(
      s: State, cfg: Config, mem: Memory, area: byte, db: u16, offset: nat, chunks: seq<nat>, result: seq<byte>, requested: int)
    requires Quiet(s, cfg, mem) && Calm(s) && FitsPDU(s.pduSize, READ_VAR_REQUEST_OVERHEAD)
    requires Chunked(chunks, db, offset, offset + Sum(chunks)) && requested == |result| + Sum(chunks)
    requires InRange(MemoryAfter(cfg, mem, Sent(s)), (area, db), offset, Sum(chunks))
    requires forall c :: c in chunks ==> c <= MAX_ITEM
    ensures ReadChunks(s, area, db, offset, chunks, result, requested).1.status == Success
    decreases |chunks|
  {
    hide ReadChunk, MemoryAfter;
    if chunks != [] {
      assert chunks[0] in chunks && forall c :: c in chunks[1..] ==> c in chunks;
      ChunkedRest(chunks, db, offset, offset + Sum(chunks));
      var addr := S7AnyAddress(area, db, offset, chunks[0]);
      CalmReadChunk(s, cfg, mem, addr);
      ReadChunkOnPlc(s, cfg, mem, addr);
      var (s1, got) := ReadChunk(s, addr);
      CalmReadChunks(s1, cfg, mem, area, db, offset + chunks[0], chunks[1..], result + got.data, requested);
    }
  }

  lemma {:induction false} SucceededChunksFit(s: State, area: byte, db: int, start: int, data: seq<byte>, offset: nat, chunks: seq<nat>)
    requires s.Valid() && offset + Sum(chunks) == |data|
    ensures WriteChunks(s, area, db, start, data, offset, chunks).1.None? ==>
              forall c :: c in chunks ==> WriteChunkFits(s.pduSize, c)
    decreases |chunks|
  {
    hide WriteChunk, WriteChunkFits;
    if chunks != [] {
      var n := chunks[0];
      var addr := S7AnyAddress(area, db, start + offset, n);
      ChunkMustFit(s, addr, data[offset..offset + n]);
      var (s1, failed) := WriteChunk(s, addr, data[offset..offset + n]);
      if failed.None? {
        SucceededChunksFit(s1, area, db, start, data, offset + n, chunks[1..]);
        assert chunks == [n] + chunks[1..];
      }
    }
  }

  lemma ChunkMustFit(s: State, addr: S7AnyAddress, chunk: seq<byte>)
    requires s.Valid()
    ensures WriteChunk(s, addr, chunk).1.None? ==> WriteChunkFits(s.pduSize, |chunk|)
  {
    var s1 := CtxErr(s).0;
    RequestSizes(NextRef(s1), addr, chunk);
  }

  /** A plan with a chunk too long for an item begins with one. */
  lemma LongChunkFirst(total: nat, max: int)
    requires max >= 1 && total > MAX_ITEM && max > MAX_ITEM
    ensures Plan(total, max) != [] && Plan(total, max)[0] > MAX_ITEM
  {
  }

  /** A write that succeeds had no chunk too long for its bit length: the device would have refused the first one. */
  lemma LongWriteFails(s: State, cfg: Config, mem: Memory, addr: Address, data: seq<byte>)
    requires Quiet(s, cfg, mem) && addr.size >= 0 && Wide(s, addr, |data|) && !Writable(s.pduSize, |data|)
    ensures WriteArea(s, addr, data).1.Some?
  {
    hide MemoryAfter, WriteChunk;
    var (s1, done) := CtxErr(s);
    var chunks := Plan(|data|, MaxWritePayload(s.pduSize));
    PlanIsExact(|data|, MaxWritePayload(s.pduSize));
    LongChunkFirst(|data|, MaxWritePayload(s.pduSize));
    if done.None? {
      var n := chunks[0];
      assert n in chunks;
      WriteChunkOnPlc(s1, cfg, mem, S7AnyAddress(addr.area, addr.dbNumber, addr.start + 0, n), data[0..0 + n]);
    }
  }

  lemma LongReadFails(s: State, cfg: Config, mem: Memory, addr: Address)
    requires Quiet(s, cfg, mem) && addr.size >= 0 && Wide(s, addr, addr.size) && !Readable(s.pduSize, addr.size)
    ensures var r := ReadArea(s, addr).1; r.Ok? && r.value.status != Success
  {
    hide MemoryAfter, ReadChunk;
    var chunks := Plan(addr.size, MaxReadData(s.pduSize));
    PlanIsExact(addr.size, MaxReadData(s.pduSize));
    LongChunkFirst(addr.size, MaxReadData(s.pduSize));
    assert chunks[0] in chunks;
    var a := S7AnyAddress(addr.area, addr.dbNumber, addr.start, chunks[0]);
    ReadChunkOnPlc(s, cfg, mem, a);
    EndsNeverSucceeds(s, a);
  }

  /**
   On a working link, exactly when a write with something to write succeeds: its padded requests fit the PDU (never,
   for an odd PDU size and a full chunk), no chunk is too long for its bit length, and the range exists.
   */
  lemma WriteSucceedsExactly(s: State, cfg: Config, mem: Memory, addr: Address, data: seq<byte>)
    requires Quiet(s, cfg, mem) && Calm(s) && addr.size >= 0 && Wide(s, addr, |data|) && data != []
    ensures WriteArea(s, addr, data).1.None?
            <==> WriteFits(s.pduSize, |data|) && Writable(s.pduSize, |data|)
                 && InRange(MemoryAfter(cfg, mem, Sent(s)), (addr.area, addr.dbNumber), addr.start, |data|)
  {
    hide MemoryAfter, WriteArea, InRange, WriteFits;
    if WriteArea(s, addr, data).1.None? {
      if !Writable(s.pduSize, |data|) {
        LongWriteFails(s, cfg, mem, addr, data);
      }
      SucceededWriteFits(s, addr, data);
      var acked, landed := AcknowledgedChunksLand(s, cfg, mem, addr, data);
    } else if WriteFits(s.pduSize, |data|) && Writable(s.pduSize, |data|)
              && InRange(MemoryAfter(cfg, mem, Sent(s)), (addr.area, addr.dbNumber), addr.start, |data|) {
      FittingWriteSucceeds(s, cfg, mem, addr, data);
    }
  }

  lemma SucceededWriteFits(s: State, addr: Address, data: seq<byte>)
    requires s.Valid() && WriteArea(s, addr, data).1.None?
    ensures WriteFits(s.pduSize, |data|)
  {
    hide WriteChunks;
    PlannedWritesFitExactly(s.pduSize, |data|);
    PlanIsExact(|data|, MaxWritePayload(s.pduSize));
    SucceededChunksFit(CtxErr(s).0, addr.area, addr.dbNumber, addr.start, data, 0, Plan(|data|, MaxWritePayload(s.pduSize)));
  }

  lemma FittingWriteSucceeds(s: State, cfg: Config, mem: Memory, addr: Address, data: seq<byte>)
    requires Quiet(s, cfg, mem) && Calm(s) && addr.size >= 0 && Wide(s, addr, |data|)
    requires WriteFits(s.pduSize, |data|) && Writable(s.pduSize, |data|)
    requires InRange(MemoryAfter(cfg, mem, Sent(s)), (addr.area, addr.dbNumber), addr.start, |data|)
    ensures WriteArea(s, addr, data).1.None? && Calm(WriteArea(s, addr, data).0)
  {
    hide MemoryAfter, WriteChunks;
    var now, key := MemoryAfter(cfg, mem, Sent(s)), (addr.area, addr.dbNumber);
    var chunks := Plan(|data|, MaxWritePayload(s.pduSize));
    EmptyPrefix(now, key, addr.start, data);
    PlannedWritesFitExactly(s.pduSize, |data|);
    PlanIsExact(|data|, MaxWritePayload(s.pduSize));
    SmallChunks(|data|, MaxWritePayload(s.pduSize));
    CalmWriteChunks(CtxErr(s).0, cfg, mem, now, addr.area, addr.dbNumber, addr.start, data, 0, chunks);
  }

  /** And exactly when a read does: its requests fit, no chunk is too long for an item, and the range exists. */
  lemma ReadSucceedsExactly(s: State, cfg: Config, mem: Memory, addr: Address)
    requires Quiet(s, cfg, mem) && Calm(s) && addr.size > 0 && Wide(s, addr, addr.size)
    ensures var r := ReadArea(s, addr).1;
            r.Ok? && (r.value.status == Success
                      <==> && FitsPDU(s.pduSize, READ_VAR_REQUEST_OVERHEAD) && Readable(s.pduSize, addr.size)
                           && InRange(MemoryAfter(cfg, mem, Sent(s)), (addr.area, addr.dbNumber), addr.start, addr.size))
  {
    hide MemoryAfter, ReadArea, InRange, FitsPDU;
    ReadSeesMemory(s, cfg, mem, addr);
    if !Readable(s.pduSize, addr.size) {
      LongReadFails(s, cfg, mem, addr);
    } else if !FitsPDU(s.pduSize, READ_VAR_REQUEST_OVERHEAD) {
      MisfitReadFails(s, addr);
    } else if InRange(MemoryAfter(cfg, mem, Sent(s)), (addr.area, addr.dbNumber), addr.start, addr.size) {
      FittingReadSucceeds(s, cfg, mem, addr);
    }
  }

  lemma MisfitReadFails(s: State, addr: Address)
    requires s.Valid() && addr.size > 0 && !FitsPDU(s.pduSize, READ_VAR_REQUEST_OVERHEAD)
    ensures var r := ReadArea(s, addr).1; r.Ok? ==> r.value.status != Success
  {
    hide ReadChunk;
    if ValidateAddress(addr).None? {
      var a := S7AnyAddress(addr.area, addr.dbNumber, addr.start, Plan(addr.size, MaxReadData(s.pduSize))[0]);
      MisfitReadChunkFails(s, a);
      EndsNeverSucceeds(s, a);
    }
  }

  lemma MisfitReadChunkFails(s: State, addr: S7AnyAddress)
    requires s.Valid() && !FitsPDU(s.pduSize, READ_VAR_REQUEST_OVERHEAD)
    ensures ReadChunk(s, addr).1.Ends?
  {
    hide ReadRequest;
    RequestSizes(NextRef(CtxErr(s).0), addr, []);
  }

  lemma FittingReadSucceeds(s: State, cfg: Config, mem: Memory, addr: Address)
    requires Quiet(s, cfg, mem) && Calm(s) && addr.size > 0 && Wide(s, addr, addr.size)
    requires FitsPDU(s.pduSize, READ_VAR_REQUEST_OVERHEAD) && Readable(s.pduSize, addr.size)
    requires InRange(MemoryAfter(cfg, mem, Sent(s)), (addr.area, addr.dbNumber), addr.start, addr.size)
    ensures var r := ReadArea(s, addr).1; r.Ok? && r.value.status == Success
  {
    hide MemoryAfter, ReadChunks;
    PlanIsExact(addr.size, MaxReadData(s.pduSize));
    SmallChunks(addr.size, MaxReadData(s.pduSize));
    CalmReadChunks(s, cfg, mem, addr.area, addr.dbNumber, addr.start, Plan(addr.size, MaxReadData(s.pduSize)), [], addr.size);
  }

  /**
   So on a link that delivers everything, a write followed by a read of the same range succeeds exactly under those
   conditions (the read's chunks are four bytes longer than the write's), and then the read returns the bytes written and
   nothing outside the range has changed.
   */
  lemma ReadAfterWriteSucceeds(s: State, cfg: Config, mem: Memory, addr: Address, data: seq<byte>)
    requires Quiet(s, cfg, mem) && Calm(s) && addr.size == |data| && Wide(s, addr, |data|)
    requires InRange(MemoryAfter(cfg, mem, Sent(s)), (addr.area, addr.dbNumber), addr.start, |data|)
    requires WriteFits(s.pduSize, |data|) && FitsPDU(s.pduSize, READ_VAR_REQUEST_OVERHEAD)
    requires Writable(s.pduSize, |data|) && Readable(s.pduSize, |data|)
    ensures var (s1, failed) := WriteArea(s, addr, data);
            var (s2, r) := ReadArea(s1, addr);
            var key, now := (addr.area, addr.dbNumber), MemoryAfter(cfg, mem, Sent(s));
            && failed.None? && r.Ok? && r.value.status == Success && r.value.data == data
            && s2.link.Some? && MemoryAfter(cfg, mem, Sent(s2)) == Stored(now, key, addr.start, data)
  {
    hide MemoryAfter, WriteArea, ReadArea;
    FittingWriteSucceeds(s, cfg, mem, addr, data);
    ReadAfterWrite(s, cfg, mem, addr, data);
    var acked, landed := AcknowledgedChunksLand(s, cfg, mem, addr, data);
    var s1 := WriteArea(s, addr, data).0;
    assert data[..|data|] == data;
    if data == [] {
      EmptyReadSucceeds(s1, addr);
    } else {
      FittingReadSucceeds(s1, cfg, mem, addr);
    }
  }

  // ---------------------------------------------------------------- over-long replies

  const PLAIN := Config(false, false, 0xFFFF, 0x02)

  /** Welcomes the connection with a PDU size of 25, answers the first request with no bytes, every later one with two. */
  function OverlongAnswer(h: seq<Tpdu>): Reply {
    if |h| == 1 then Frame(CC)
    else if |h| == 2 then H.SetupAnswer(1, H.Setup(1, 1, 25))
    else if h != [] && h[|h| - 1].DT? && |h[|h| - 1].userData| >= 6
    then ReadReply(PLAIN, GetU16(h[|h| - 1].userData, 4), DataItem(PLAIN, if |h| == 3 then [] else [7, 8]))
    else Undecodable
  }

  const OVERLONG := Env(_ => Delivered, OverlongAnswer)

  lemma OverlongChunk(s: State, addr: S7AnyAddress)
    requires s.Valid() && Calm(s) && s.link.value.Lag() == 0 && s.pduSize == 25 && s.link.value.env == OVERLONG && |Sent(s)| >= 2
    ensures var (s', got) := ReadChunk(s, addr);
            && s'.Valid() && Calm(s') && s'.link.value.Lag() == 0 && s'.link.value.env == OVERLONG
            && |Sent(s')| == |Sent(s)| + 1
            && got == ChunkRead.Bytes(if |Sent(s)| == 2 then [] else [7, 8])
  {
    hide ReadRequest, Interpret, OfReadReply;
    var s1 := CtxErr(s).0;
    assert s.ctx(s.checks) == None;
    var l, req := s.link.value, ReadRequest(NextRef(s1), [addr]);
    assert l.env.io(l.clock) == Delivered;
    RequestSizes(NextRef(s1), addr, []);
    var l' := Call(s1, req).0.link.value;
    assert l'.sent[..l.taken + 1] == l.sent + [DT(req)];
    ReadReplyMeans(PLAIN, NextRef(s1), DataItem(PLAIN, if |l.sent| == 2 then [] else [7, 8]));
  }

  /**
   Without the no-over-long hypothesis success does not mean the right bytes: in a session just opened, an empty
   first chunk is hidden by an over-long second one.
   */
  lemma OverlongReplyHidesAnEmptyChunk(o: H.Options, rack: int, slot: int, issued: nat, area: byte, db: int) returns (session: H.Session)
    requires H.TSAPs(o, rack, slot).Ok? && db >= 0
    ensures H.Attempt(o, H.Accepted(OVERLONG), NEVER, 0, rack, slot).1 == Ok(session)
    ensures var r := ReadArea(session.Opened(issued, NEVER, 2), Address(area, db, 0, 2)).1;
            r.Ok? && r.value.status == Success && r.value.data == [7, 8]
    ensures ChunkAnswers(session.Opened(issued, NEVER, 2), area, db, 0, Plan(2, MaxReadData(25))) == Some([[], [7, 8]])
  {
    session := H.WelcomeOpens(o, OVERLONG, rack, slot, H.Setup(1, 1, 25));
    hide H.TSAPs, H.SetupRequest, H.Attempt, ReadChunks, ChunkAnswers;
    OverlongReads(session.Opened(issued, NEVER, 2), area, db);
  }

  lemma OverlongReads(s0: State, area: byte, db: int)
    requires s0.Valid() && Calm(s0) && s0.link.value.Lag() == 0 && s0.pduSize == 25 && s0.link.value.env == OVERLONG && |Sent(s0)| == 2
    requires db >= 0
    ensures var r := ReadArea(s0, Address(area, db, 0, 2)).1;
            r.Ok? && r.value.status == Success && r.value.data == [7, 8]
    ensures ChunkAnswers(s0, area, db, 0, Plan(2, MaxReadData(25))) == Some([[], [7, 8]])
  {
    hide ReadChunk;
    var a0, a1 := S7AnyAddress(area, db, 0, 1), S7AnyAddress(area, db, 1, 1);
    var one, two: seq<nat> := [1], [1, 1];
    assert Plan(2, 1) == two && two[1..] == one && one[1..] == [];
    OverlongChunk(s0, a0);
    var s1 := ReadChunk(s0, a0).0;
    OverlongChunk(s1, a1);
    var s2 := ReadChunk(s1, a1).0;
    var d0: seq<byte>, d1: seq<byte>, none: seq<seq<byte>> := [], [7, 8], [];
    assert [d1] + none == [d1] && [d0] + [d1] == [d0, d1];
    assert ChunkAnswers(s2, area, db, 2, []) == Some(none);
    assert ChunkAnswers(s1, area, db, 1, one) == Some([d1]);
    assert ChunkAnswers(s0, area, db, 0, two) == Some([d0, d1]);
    ReadChunksOutcome(s0, area, db, 0, two, [], 2);
    assert Flatten([[7, 8]]) == [7, 8] && Flatten([[], [7, 8]]) == [7, 8];
  }

  // ---------------------------------------------------------------- chunks too long for their bit length

  /** On a delivering link a chunk that fits the PDU reaches the device, whatever is unread. */
  lemma DeliveredChunkLands(s: State, cfg: Config, mem: Memory, addr: S7AnyAddress, chunk: seq<byte>)
    requires Wired(s, cfg, mem) && Calm(s) && WriteChunkFits(s.pduSize, |chunk|) && |chunk| <= 0xFFF0 - WRITE_VAR_REQUEST_OVERHEAD
    requires Addressable(addr.dbNumber, addr.start, addr.size) && addr.size == |chunk|
    ensures var (s', failed) := WriteChunk(s, addr, chunk);
            var key, now := (addr.area, addr.dbNumber), MemoryAfter(cfg, mem, Sent(s));
            && Wired(s', cfg, mem) && Calm(s') && s'.pduSize == s.pduSize && s'.issued == s.issued + 1
            && MemoryAfter(cfg, mem, Sent(s')) == (if Serves(now, key, addr.start, |chunk|) then Stored(now, key, addr.start, chunk) else now)
            && s'.link.value.taken == s.link.value.taken + 1
  {
    hide MemoryAfter, Act, WriteRequest, Interpret, ParseWriteVarResponse;
    assert s.ctx(s.checks) == None;
    var s1, l := CtxErr(s).0, s.link.value;
    var req := WriteRequest(NextRef(s1), addr, chunk);
    RequestSizes(NextRef(s1), addr, chunk);
    assert l.env.io(l.clock) == Delivered;
    CallOnPlc(s1, cfg, mem, req);
    PlcAnswersWrite(cfg, MemoryAfter(cfg, mem, Sent(s)), NextRef(s1), addr, chunk);
  }

  /**
   Why long chunks need that: with reference 0 next and a good write acknowledgement unread, the refusal of a chunk
   too long for its bit length goes unnoticed, and the next chunk lands beyond a hole.
   */
  lemma LongChunkCanLeaveAHole(s: State, cfg: Config, mem: Memory, addr: Address, data: seq<byte>)
    requires Wired(s, cfg, mem) && Calm(s) && s.pduSize == 8220 && |data| == 8193 && addr.size >= 0 && Wide(s, addr, |data|)
    requires InRange(MemoryAfter(cfg, mem, Sent(s)), (addr.area, addr.dbNumber), addr.start, |data|)
    requires s.link.value.Lag() == 1 && NextRef(s) == 0
    requires var r := Interpret(s.link.value.ReplyAt(s.link.value.taken), 0); r.Ok? && ParseWriteVarResponse(r.value.0, r.value.1).None?
    ensures var s' := WriteArea(s, addr, data).0;
            s'.link.Some? && MemoryAfter(cfg, mem, Sent(s'))
            == Stored(MemoryAfter(cfg, mem, Sent(s)), (addr.area, addr.dbNumber), addr.start + 8192, data[8192..])
  {
    hide MemoryAfter, WriteChunk, Interpret, ParseWriteVarResponse;
    var max := MaxWritePayload(s.pduSize);
    LongPlan(max);
    var chunks, one, none: seq<nat> := [8192, 1], [1], [];
    assert chunks[1..] == one && one[1..] == none;
    assert s.ctx(s.checks) == None;
    var s0, first, last := CtxErr(s).0, data[0..0 + 8192], data[8192..8192 + 1];
    var a0, a1 := S7AnyAddress(addr.area, addr.dbNumber, addr.start + 0, 8192), S7AnyAddress(addr.area, addr.dbNumber, addr.start + 8192, 1);
    DeliveredChunkLands(s0, cfg, mem, a0, first);
    StaleWriteAccepted(s0, a0, first);
    var s1 := WriteChunk(s0, a0, first).0;
    DeliveredChunkLands(s1, cfg, mem, a1, last);
    assert last == data[8192..];
    var s2 := WriteChunk(s1, a1, last).0;
    assert WriteChunks(s1, addr.area, addr.dbNumber, addr.start, data, 8192, one).0 == s2;
    assert WriteChunks(s0, addr.area, addr.dbNumber, addr.start, data, 0, chunks).0 == s2;
  }

  lemma LongPlan(max: int)
    requires max == 8192
    ensures Plan(8193, max) == [8192, 1]
  {
    assert Plan(1, max) == [1];
  }

  lemma StaleWriteAccepted(s: State, addr: S7AnyAddress, chunk: seq<byte>)
    requires s.Valid() && Calm(s) && s.link.value.Lag() == 1 && NextRef(s) == 0
    requires WriteChunkFits(s.pduSize, |chunk|) && |chunk| <= 0xFFF0 - WRITE_VAR_REQUEST_OVERHEAD
    requires var r := Interpret(s.link.value.ReplyAt(s.link.value.taken), 0); r.Ok? && ParseWriteVarResponse(r.value.0, r.value.1).None?
    ensures WriteChunk(s, addr, chunk).1.None?
  {
    hide Interpret, ParseWriteVarResponse, WriteRequest;
    assert s.ctx(s.checks) == None;
    var s1, l := CtxErr(s).0, s.link.value;
    var req := WriteRequest(NextRef(s1), addr, chunk);
    RequestSizes(NextRef(s1), addr, chunk);
    assert l.env.io(l.clock) == Delivered;
    RepliesStay(l, Call(s1, req).0.link.value, l.taken);
  }
}
