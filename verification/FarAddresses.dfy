/**
 Addresses the wire fields cannot name (wire/pdu_rw.go:171-189): validation accepts them, and the
 encoder drops their upper bits, so they silently stand for another address.
 */
module FarAddresses {
  import opened Bytes
  import opened S7
  import opened PduReadWrite
  import opened Exchange
  import opened ReadWrite
  import opened Plc
  import opened ReadAfterWrite

  /** The address whose bytes go on the wire. */
  function Wrapped(addr: Address): Address {
    addr.(start := addr.start % ADDRESSABLE, dbNumber := addr.dbNumber % 0x1_0000)
  }

  predicate Alike(a: int, b: int, m: int)
    requires m > 0
  {
    a % m == b % m
  }

  lemma SameWord(a: int, b: int)
    requires Alike(a, b, 0x1_0000)
    ensures PutU16(a) == PutU16(b)
  {
    U16RoundTrip(a);
    U16RoundTrip(b);
  }

  lemma SameThreeBytes(x: seq<byte>, y: seq<byte>)
    requires |x| == 3 && |y| == 3 && GetU24(x, 0) == GetU24(y, 0)
    ensures x == y
  {
    var d0, d1, d2 := x[0] - y[0], x[1] - y[1], x[2] - y[2];
    assert 0x100 * (0x100 * d0 + d1) + d2 == 0;
    assert d2 == 0 && d1 == 0 && d0 == 0;
    assert x == [x[0], x[1], x[2]] && y == [y[0], y[1], y[2]];
  }

  lemma SameBitAddress(a: int, b: int)
    requires Alike(a, b, ADDRESSABLE)
    ensures PutU24(a * 8) == PutU24(b * 8)
  {
    hide PutU24;
    U24RoundTrip(a * 8);
    U24RoundTrip(b * 8);
    BitAddress(a);
    BitAddress(b);
    SameThreeBytes(PutU24(a * 8), PutU24(b * 8));
  }

  lemma Shifted(a: int, b: int, n: int)
    requires Alike(a, b, ADDRESSABLE)
    ensures Alike(a + n, b + n, ADDRESSABLE)
  {
    var qa, qb := a / ADDRESSABLE, b / ADDRESSABLE;
    assert a + n == b + n + ADDRESSABLE * (qa - qb);
  }

  lemma SameItem(a: S7AnyAddress, b: S7AnyAddress)
    requires a.area == b.area && a.size == b.size && Alike(a.dbNumber, b.dbNumber, 0x1_0000) && Alike(a.start, b.start, ADDRESSABLE)
    ensures EncodeS7Any(a) == EncodeS7Any(b)
  {
    SameWord(a.dbNumber, b.dbNumber);
    SameBitAddress(a.start, b.start);
    hide PutU16, PutU24;
  }

  lemma SameReadChunk(s: State, a: S7AnyAddress, b: S7AnyAddress)
    requires s.Valid() && EncodeS7Any(a) == EncodeS7Any(b)
    ensures ReadChunk(s, a) == ReadChunk(s, b)
  {
    hide Call, EncodeS7Any;
    var ref := NextRef(CtxErr(s).0);
    assert AddressBytes([a]) == EncodeS7Any(a) + [] == EncodeS7Any(b) + [] == AddressBytes([b]);
    assert ReadRequest(ref, [a]) == ReadRequest(ref, [b]);
  }

  lemma SameWriteChunk(s: State, a: S7AnyAddress, b: S7AnyAddress, chunk: seq<byte>)
    requires s.Valid() && EncodeS7Any(a) == EncodeS7Any(b)
    ensures WriteChunk(s, a, chunk) == WriteChunk(s, b, chunk)
  {
    hide Call, EncodeS7Any;
    var ref := NextRef(CtxErr(s).0);
    assert WriteRequest(ref, a, chunk) == WriteRequest(ref, b, chunk);
  }

  lemma {:induction false} SameReadChunks(
      s: State, area: byte, db: int, offset: int, db': int, offset': int, chunks: seq<nat>, result: seq<byte>, requested: int)
    requires s.Valid() && Alike(db, db', 0x1_0000) && Alike(offset, offset', ADDRESSABLE)
    ensures ReadChunks(s, area, db, offset, chunks, result, requested) == ReadChunks(s, area, db', offset', chunks, result, requested)
    decreases |chunks|
  {
    hide ReadChunk;
    if chunks != [] {
      var n := chunks[0];
      var a, b := S7AnyAddress(area, db, offset, n), S7AnyAddress(area, db', offset', n);
      SameItem(a, b);
      SameReadChunk(s, a, b);
      Shifted(offset, offset', n);
      var (s1, got) := ReadChunk(s, a);
      if got.Bytes? {
        SameReadChunks(s1, area, db, offset + n, db', offset' + n, chunks[1..], result + got.data, requested);
      }
    }
  }

  lemma {:induction false} SameWriteChunks(
      s: State, area: byte, db: int, start: int, db': int, start': int, data: seq<byte>, offset: nat, chunks: seq<nat>)
    requires s.Valid() && offset + Sum(chunks) == |data| && Alike(db, db', 0x1_0000) && Alike(start, start', ADDRESSABLE)
    ensures WriteChunks(s, area, db, start, data, offset, chunks) == WriteChunks(s, area, db', start', data, offset, chunks)
    decreases |chunks|
  {
    hide WriteChunk;
    if chunks != [] {
      var n := chunks[0];
      var a, b := S7AnyAddress(area, db, start + offset, n), S7AnyAddress(area, db', start' + offset, n);
      Shifted(start, start', offset);
      SameItem(a, b);
      var chunk := data[offset..offset + n];
      SameWriteChunk(s, a, b, chunk);
      SameWriteChunks(WriteChunk(s, a, chunk).0, area, db, start, db', start', data, offset + n, chunks[1..]);
    }
  }

  lemma WrappedIsAlike(addr: Address)
    ensures Alike(addr.start, Wrapped(addr).start, ADDRESSABLE) && Alike(addr.dbNumber, Wrapped(addr).dbNumber, 0x1_0000)
    ensures ValidateAddress(addr).None? ==> ValidateAddress(Wrapped(addr)).None?
  {
  }

  /** Whatever the connection does, a read or write of an accepted address is one of its wrapped address, in outcome and on the wire. */
  lemma AddressesWrap(s: State, addr: Address, data: seq<byte>)
    requires s.Valid() && ValidateAddress(addr).None?
    ensures ReadArea(s, addr) == ReadArea(s, Wrapped(addr))
    ensures WriteArea(s, addr, data) == WriteArea(s, Wrapped(addr), data)
  {
    hide ReadChunks, WriteChunks, ADDRESSABLE;
    var w := Wrapped(addr);
    WrappedIsAlike(addr);
    SameReadChunks(s, addr.area, addr.dbNumber, addr.start, w.dbNumber, w.start, Plan(addr.size, MaxReadData(s.pduSize)), [], addr.size);
    PlanIsExact(|data|, MaxWritePayload(s.pduSize));
    SameWriteChunks(CtxErr(s).0, addr.area, addr.dbNumber, addr.start, w.dbNumber, w.start, data, 0, Plan(|data|, MaxWritePayload(s.pduSize)));
  }

  /** So a write beyond 2 MB, or to a data block beyond 65535, lands at the start of the area or in another block. */
  lemma FarWriteLands(s: State, cfg: Config, mem: Memory, addr: Address, data: seq<byte>) returns (landed: nat)
    requires Wired(s, cfg, mem) && ValidateAddress(addr).None? && Wide(s, Wrapped(addr), |data|)
    requires Writable(s.pduSize, |data|) || s.link.value.Lag() == 0 || StaleRefused(s)
    ensures WriteLanded(s, WriteArea(s, addr, data).0, WriteArea(s, addr, data).1, cfg, mem, Wrapped(addr), data, landed)
  {
    hide WriteArea, ReadArea, WriteLanded;
    AddressesWrap(s, addr, data);
    landed := WriteLandsAsPrefix(s, cfg, mem, Wrapped(addr), data);
  }
}
