/**
 A device that keeps its memory areas as byte arrays and answers the actual bytes it is sent, with
 its own reading of the protocol's layout. Chunked reads and writes are proved against it.
 */
module Plc {
  import opened Bytes
  import opened S7
  import opened PduReadWrite
  import opened Link
  import opened Exchange
  import opened ReadWrite
  import H = Handshake

  // ---------------------------------------------------------------- the reference decoder

  datatype Request =
    | Read(ref: u16, area: byte, db: u16, start: nat, size: u16)
    | Write(ref: u16, area: byte, db: u16, start: nat, size: u16, value: seq<byte>)
    | Setup(ref: u16, maxAmqCalling: u16, maxAmqCalled: u16, pduSize: u16)
    | Unknown

  /** A setup request: function code at 10, the two queue sizes and the PDU size from 12. */
  predicate IsSetup(f: seq<byte>) {
    |f| == 18 && f[0] == 0x32 && f[1] == 0x01 && GetU16(f, 6) == 8 && GetU16(f, 8) == 0 && f[10] == 0xF0
  }

  /** A single-item request: function code at 10, item count at 11, S7Any item at 12..24, data section from 24. */
  function Decode(f: seq<byte>): Request {
    if IsSetup(f) then Setup(GetU16(f, 4), GetU16(f, 12), GetU16(f, 14), GetU16(f, 16))
    else if |f| < 24 || f[0] != 0x32 || f[1] != 0x01 || GetU16(f, 6) != 14 || |f| != 24 + GetU16(f, 8) then Unknown
    else if f[11] != 1 || f[12..16] != [0x12, 0x0A, 0x10, 0x02] || GetU24(f, 21) % 8 != 0 then Unknown
    else
      var ref, size, db, area, start := GetU16(f, 4), GetU16(f, 16), GetU16(f, 18), f[20], GetU24(f, 21) / 8;
      if f[10] == 0x04 && |f| == 24 then Read(ref, area, db, start, size)
      else if f[10] == 0x05 && |f| >= 28 && f[25] == 0x04 && GetU16(f, 26) % 8 == 0 && 28 + GetU16(f, 26) / 8 <= |f|
      then Write(ref, area, db, start, size, f[28..28 + GetU16(f, 26) / 8])
      else Unknown
  }

  const ADDRESSABLE := 0x20_0000  // bytes a 24-bit bit address can name

  lemma BitAddress(start: int)
    ensures (start * 8) % 0x100_0000 == 8 * (start % ADDRESSABLE)
  {
    assert start * 8 == 0x100_0000 * (start / ADDRESSABLE) + 8 * (start % ADDRESSABLE);
  }

  /** What the item part of a request says, whatever surrounds it. */
  lemma AnyItemAt(f: seq<byte>, addr: S7AnyAddress)
    requires |f| >= 24 && f[12..24] == EncodeS7Any(addr)
    ensures f[12..16] == [0x12, 0x0A, 0x10, 0x02]
    ensures GetU16(f, 16) == addr.size % 0x1_0000 && GetU16(f, 18) == addr.dbNumber % 0x1_0000 && f[20] == addr.area
    ensures GetU24(f, 21) == 8 * (addr.start % ADDRESSABLE)
  {
    var item := f[12..24];
    U16RoundTrip(addr.size);
    U16RoundTrip(addr.dbNumber);
    U24RoundTrip(addr.start * 8);
    BitAddress(addr.start);
    assert f[12..16] == item[..4];
    assert f[16] == item[4] && f[17] == item[5] && f[18] == item[6] && f[19] == item[7] && f[20] == item[8];
    assert f[21] == item[9] && f[22] == item[10] && f[23] == item[11];
  }

  /** A read request names its range modulo the widths of the wire fields, for every input. */
  lemma DecodeReadRequest(ref: u16, addr: S7AnyAddress)
    ensures Decode(ReadRequest(ref, [addr]))
         == Read(ref, addr.area, addr.dbNumber % 0x1_0000, addr.start % ADDRESSABLE, addr.size % 0x1_0000)
  {
    var param := [FUNC_READ_VAR, 1] + EncodeS7Any(addr);
    assert AddressBytes([addr]) == EncodeS7Any(addr);
    assert [FUNC_READ_VAR, |[addr]| % 0x100] + AddressBytes([addr]) == param;
    var f := HeaderBytes(ROSCTR_JOB, ref, 14, 0) + param;
    assert ReadRequest(ref, [addr]) == f;
    FieldsOfHeader(ROSCTR_JOB, ref, 14, 0, param);
    assert f[12..24] == EncodeS7Any(addr);
    AnyItemAt(f, addr);
    assert f[10] == f[10..][0] && f[11] == f[10..][1];
  }

  /**
   So does a write request, for every input: its value survives when its bit length fits 16 bits and is cut modulo 8192
   bytes otherwise; a data section too long for the header's length field makes the frame unreadable.
   */
  lemma DecodeWriteRequest(ref: u16, addr: S7AnyAddress, value: seq<byte>)
    ensures Decode(WriteRequest(ref, addr, value))
         == if |value| > 0xFFFA then Unknown
            else Write(ref, addr.area, addr.dbNumber % 0x1_0000, addr.start % ADDRESSABLE, addr.size % 0x1_0000,
                       value[..|value| % 0x2000])
  {
    if |value| > 0xFFFA {
      LongWriteIsUnknown(ref, addr, value);
    } else {
      DecodeShortWriteRequest(ref, addr, value);
    }
  }

  lemma LongWriteIsUnknown(ref: u16, addr: S7AnyAddress, value: seq<byte>)
    requires |value| > 0xFFFA
    ensures Decode(WriteRequest(ref, addr, value)) == Unknown
  {
    hide WriteData, EncodeS7Any;
    var f, n := WriteRequest(ref, addr, value), |WriteData(value)|;
    assert f[8] == PutU16(n)[0] && f[9] == PutU16(n)[1];
    U16RoundTrip(n);
    assert |f| == 24 + n && n >= 0x1_0000 > n % 0x1_0000;
  }

  lemma DecodeShortWriteRequest(ref: u16, addr: S7AnyAddress, value: seq<byte>)
    requires |value| <= 0xFFFA
    ensures Decode(WriteRequest(ref, addr, value))
         == Write(ref, addr.area, addr.dbNumber % 0x1_0000, addr.start % ADDRESSABLE, addr.size % 0x1_0000,
                  value[..|value| % 0x2000])
  {
    hide WriteData, WriteRequest, EncodeS7Any;
    var f, data, n := WriteRequest(ref, addr, value), WriteData(value), |value| % 0x2000;
    WriteFrame(ref, addr, value);
    AnyItemAt(f, addr);
    WriteSection(value);
    assert f[25] == f[24..][1] && f[26] == f[24..][2] && f[27] == f[24..][3];
    assert f[28..28 + n] == data[4..4 + n];
  }

  /** The frame's fixed fields, its item and its data section. */
  lemma WriteFrame(ref: u16, addr: S7AnyAddress, value: seq<byte>)
    requires |value| <= 0xFFFA
    ensures var f, data := WriteRequest(ref, addr, value), WriteData(value);
            && |f| == 24 + |data| && f[0] == 0x32 && f[1] == 0x01 && GetU16(f, 4) == ref && GetU16(f, 6) == 14 && GetU16(f, 8) == |data|
            && f[10] == 0x05 && f[11] == 1 && f[12..24] == EncodeS7Any(addr) && f[24..] == data
  {
    hide WriteData;
    var data := WriteData(value);
    var f := HeaderBytes(ROSCTR_JOB, ref, 14, |data|) + (WriteParam(addr) + data);
    assert WriteRequest(ref, addr, value) == f;
    FieldsOfHeader(ROSCTR_JOB, ref, 14, |data|, WriteParam(addr) + data);
    assert f[10] == f[10..][0] && f[11] == f[10..][1];
  }

  lemma WriteSection(value: seq<byte>)
    ensures var d, n := WriteData(value), |value| % 0x2000;
            d[1] == 0x04 && GetU16(d, 2) == 8 * n && d[4..4 + n] == value[..n]
  {
    hide PutU16;
    var bits := PutU16(|value| * 8);
    U16RoundTrip(|value| * 8);
    BitLength(|value|);
    var d := WriteData(value);
    assert d[2] == bits[0] && d[3] == bits[1] && GetU16(d, 2) == GetU16(bits, 0);
  }

  lemma BitLength(n: nat)
    ensures (n * 8) % 0x1_0000 == 8 * (n % 0x2000)
  {
    var q, r := n / 0x2000, n % 0x2000;
    assert n * 8 == 0x1_0000 * q + 8 * r;
  }

  // ---------------------------------------------------------------- the device

  type Memory = map<(byte, u16), seq<byte>>

  /**
   Whether read lengths are reported in bits or bytes, whether an odd last item is padded, the largest PDU it negotiates,
   and the transport size it puts beside the return code of an item it refuses.
   */
  datatype Config = Config(bits: bool, fillLast: bool, maxPDU: u16, refusalSize: byte) {
    function Fill(): Option<byte> {
      if fillLast then Some(0) else None
    }

    /** The client knows that transport size. */
    predicate RefusesReadably() {
      refusalSize == 0x02 || CountsBits(refusalSize)
    }
  }

  const MAX_ITEM := 0x1FFF  // the longest item whose length fits 16 bits when counted in bits

  predicate InRange(mem: Memory, key: (byte, u16), start: nat, n: nat) {
    key in mem && start + n <= |mem[key]|
  }

  function Stored(mem: Memory, key: (byte, u16), start: nat, value: seq<byte>): Memory
    requires InRange(mem, key, start, |value|)
  {
    mem[key := mem[key][..start] + value + mem[key][start + |value|..]]
  }

  function DataItem(cfg: Config, d: seq<byte>): WireItem
    requires |d| <= MAX_ITEM
  {
    if cfg.bits then WireItem(RET_CODE_SUCCESS, 0x04, 8 * |d|, d) else WireItem(RET_CODE_SUCCESS, 0x02, |d|, d)
  }

  function ReadReply(cfg: Config, ref: u16, item: WireItem): Reply
    requires |item.payload| <= MAX_ITEM
  {
    Frame(DT(AckBytes(ref, 0, 0, [FUNC_READ_VAR, 1], item.Bytes(cfg.Fill()))))
  }

  function WriteReply(ref: u16, code: byte): Reply {
    Frame(DT(AckBytes(ref, 0, 0, [FUNC_WRITE_VAR, 1], [code])))
  }

  /** The setup it grants: the queue sizes asked for, and the smaller PDU size of the two. */
  function Granted(cfg: Config, calling: u16, called: u16, pduSize: u16): H.Setup {
    Smaller(cfg.maxPDU, calling, called, pduSize)
  }

  function Smaller(maxPDU: u16, calling: u16, called: u16, pduSize: u16): H.Setup {
    H.Setup(calling, called, if pduSize < maxPDU then pduSize else maxPDU)
  }

  function Act(cfg: Config, mem: Memory, t: Tpdu): (Memory, Reply) {
    if !t.DT? then (mem, if t.CR? then Frame(CC) else Undecodable) else
    match Decode(t.userData)
    case Read(ref, area, db, start, size) =>
      if size <= MAX_ITEM && InRange(mem, (area, db), start, size)
      then (mem, ReadReply(cfg, ref, DataItem(cfg, mem[(area, db)][start..start + size])))
      else (mem, ReadReply(cfg, ref, WireItem(0x05, cfg.refusalSize, 0, [])))
    case Write(ref, area, db, start, size, value) =>
      if |value| == size && InRange(mem, (area, db), start, size)
      then (Stored(mem, (area, db), start, value), WriteReply(ref, RET_CODE_SUCCESS))
      else (mem, WriteReply(ref, 0x05))
    case Setup(ref, calling, called, pduSize) => (mem, H.SetupAnswer(ref, Granted(cfg, calling, called, pduSize)))
    case Unknown => (mem, Undecodable)
  }

  /** The memory after a list of frames, oldest first. */
  function MemoryAfter(cfg: Config, mem: Memory, h: seq<Tpdu>): Memory {
    if h == [] then mem
    else Act(cfg, MemoryAfter(cfg, mem, h[..|h| - 1]), h[|h| - 1]).0
  }

  function Answer(cfg: Config, mem: Memory, h: seq<Tpdu>): Reply {
    if h == [] then Undecodable
    else Act(cfg, MemoryAfter(cfg, mem, h[..|h| - 1]), h[|h| - 1]).1
  }

  ghost predicate IsPlc(serve: seq<Tpdu> -> Reply, cfg: Config, mem: Memory) {
    forall h: seq<Tpdu> :: serve(h) == Answer(cfg, mem, h)
  }

  /** After these frames the device is that one, whatever it may be after others. */
  ghost predicate PlcFrom(serve: seq<Tpdu> -> Reply, cfg: Config, mem: Memory, before: seq<Tpdu>) {
    forall h: seq<Tpdu> :: before <= h ==> serve(h) == Answer(cfg, mem, h)
  }

  /** A connection to such a device, whatever replies are still waiting on it. */
  ghost predicate Wired(s: State, cfg: Config, mem: Memory) {
    && s.Valid() && s.link.Some? && Echoes(s.link.value.env.serve)
    && PlcFrom(s.link.value.env.serve, cfg, mem, s.link.value.sent[..s.link.value.taken])
  }

  lemma WiredStays(s: State, s': State, cfg: Config, mem: Memory)
    requires Wired(s, cfg, mem) && s'.Valid() && s'.link.Some?
    requires var l, l' := s.link.value, s'.link.value; l'.env == l.env && l.sent <= l'.sent && l.taken <= l'.taken
    ensures Wired(s', cfg, mem)
  {
    var l, l' := s.link.value, s'.link.value;
    assert l.sent[..l.taken] <= l'.sent[..l'.taken];
  }

  /** One on which nothing is waiting to be read. */
  ghost predicate Quiet(s: State, cfg: Config, mem: Memory) {
    Wired(s, cfg, mem) && s.link.value.Lag() == 0
  }

  function Sent(s: State): seq<Tpdu>
    requires s.link.Some?
  {
    s.link.value.sent
  }

  // ---------------------------------------------------------------- one exchange with it

  lemma AnswerToNext(cfg: Config, mem: Memory, h: seq<Tpdu>, t: Tpdu)
    ensures MemoryAfter(cfg, mem, h + [t]) == Act(cfg, MemoryAfter(cfg, mem, h), t).0
    ensures Answer(cfg, mem, h + [t]) == Act(cfg, MemoryAfter(cfg, mem, h), t).1
  {
    assert (h + [t])[..|h + [t]| - 1] == h;
  }

  /** On any connection a request is delivered and acted upon, or it fails and nothing has happened. */
  lemma CallOnPlc(s: State, cfg: Config, mem: Memory, req: seq<byte>)
    requires Wired(s, cfg, mem)
    ensures var (s', r) := Call(s, req);
            var now, after := MemoryAfter(cfg, mem, Sent(s)), MemoryAfter(cfg, mem, Sent(s'));
            && Wired(s', cfg, mem)
            && ((Sent(s') == Sent(s) && after == now && r.Err?)
                || (Sent(s') == Sent(s) + [DT(req)] && after == Act(cfg, now, DT(req)).0))
  {
    AnswerToNext(cfg, mem, Sent(s), DT(req));
    WiredStays(s, Call(s, req).0, cfg, mem);
  }

  /** The device answers with the reference of the request it answers. */
  lemma PlcEchoes(serve: seq<Tpdu> -> Reply, cfg: Config, mem: Memory)
    requires IsPlc(serve, cfg, mem)
    ensures Echoes(serve)
  {
    hide MemoryAfter, Act;
    forall h: seq<Tpdu>, ref: u16 | h != [] && Carries(h[|h| - 1], ref) ensures EchoesRef(serve(h), ref) {
      assert serve(h) == Answer(cfg, mem, h);
      ActEchoes(cfg, MemoryAfter(cfg, mem, h[..|h| - 1]), h[|h| - 1], ref);
    }
  }

  lemma ActEchoes(cfg: Config, now: Memory, t: Tpdu, ref: u16)
    requires Carries(t, ref)
    ensures EchoesRef(Act(cfg, now, t).1, ref)
  {
    hide ReadReply, WriteReply, H.SetupAnswer, Decode;
    DecodedRef(t.userData);
    match Decode(t.userData)
    case Read(r, area, db, start, size) =>
      if size <= MAX_ITEM && InRange(now, (area, db), start, size) {
        ReadReplyEchoes(cfg, ref, DataItem(cfg, now[(area, db)][start..start + size]));
      }
      ReadReplyEchoes(cfg, ref, WireItem(0x05, cfg.refusalSize, 0, []));
    case Write(r, area, db, start, size, value) =>
      WriteReplyEchoes(ref, RET_CODE_SUCCESS);
      WriteReplyEchoes(ref, 0x05);
    case Setup(r, calling, called, pduSize) => SetupReplyEchoes(ref, Granted(cfg, calling, called, pduSize));
    case Unknown =>
  }

  lemma DecodedRef(f: seq<byte>)
    ensures var d := Decode(f); !d.Unknown? ==> |f| >= 6 && d.ref == GetU16(f, 4)
  {
  }

  lemma ReadReplyEchoes(cfg: Config, ref: u16, item: WireItem)
    requires |item.payload| <= MAX_ITEM
    ensures EchoesRef(ReadReply(cfg, ref, item), ref)
  {
    AckRoundTrip(ref, 0, 0, [FUNC_READ_VAR, 1], item.Bytes(cfg.Fill()));
  }

  lemma SetupReplyEchoes(ref: u16, setup: H.Setup)
    ensures EchoesRef(H.SetupAnswer(ref, setup), ref)
  {
    var param := [0xF0, 0x00] + PutU16(setup.maxAmqCalling) + PutU16(setup.maxAmqCalled) + PutU16(setup.pduSize);
    AckRoundTrip(ref, 0, 0, param, []);
  }

  lemma WriteReplyEchoes(ref: u16, code: byte)
    ensures EchoesRef(WriteReply(ref, code), ref)
  {
    AckRoundTrip(ref, 0, 0, [FUNC_WRITE_VAR, 1], [code]);
  }

  /** On a quiet connection an accepted reply is the device's answer to the request just sent. */
  lemma CallOnQuiet(s: State, cfg: Config, mem: Memory, req: seq<byte>)
    requires Quiet(s, cfg, mem)
    ensures var (s', r) := Call(s, req);
            && s'.Valid() && s'.link.Some? && s'.link.value.env == s.link.value.env
            && (Sent(s') == Sent(s) || Sent(s') == Sent(s) + [DT(req)])
            && (s'.link.value.Lag() == 0 || (s'.link.value.Lag() == 1 && Sent(s') == Sent(s) + [DT(req)]))
            && (r.Ok? ==> |Sent(s')| > |Sent(s)| && s'.link.value.Lag() == 0)
            && (|Sent(s')| > |Sent(s)| && s'.link.value.Lag() == 0 ==>
                  && Quiet(s', cfg, mem) && Sent(s') == Sent(s) + [DT(req)]
                  && r == Interpret(Act(cfg, MemoryAfter(cfg, mem, Sent(s)), DT(req)).1, NextRef(s)))
  {
    var (s', r) := Call(s, req);
    WiredStays(s, s', cfg, mem);
    if s'.link.value.taken > s.link.value.taken {
      var l, l' := s.link.value, s'.link.value;
      assert l'.sent[..l.taken + 1] == l'.sent && l.sent[..l.taken] <= l'.sent;
      AnswerToNext(cfg, mem, l.sent, DT(req));
    }
  }

  lemma ReadReplyMeans(cfg: Config, ref: u16, item: WireItem)
    requires |item.payload| <= MAX_ITEM
    ensures Interpret(ReadReply(cfg, ref, item), ref) == Ok(([FUNC_READ_VAR, 1], item.Bytes(cfg.Fill())))
    ensures item.Valid() && item.returnCode == RET_CODE_SUCCESS ==>
              OfReadReply([FUNC_READ_VAR, 1], item.Bytes(cfg.Fill())) == ChunkRead.Bytes(item.payload)
  {
    AckRoundTrip(ref, 0, 0, [FUNC_READ_VAR, 1], item.Bytes(cfg.Fill()));
    if item.Valid() {
      ReadResponseRoundTrip([item], 0, cfg.fillLast);
      SerializeOne(item, 0, cfg.fillLast);
    }
  }

  /** What the client makes of a refused item: the refusal and its code, or, with a transport size unknown to it, a protocol error. */
  function RefusedAs(cfg: Config): ChunkRead {
    if cfg.RefusesReadably() then Ends(Rejected, true, 0x05, None) else Ends(ProtocolErr, true, 0, None)
  }

  lemma RefusalIsNotData(cfg: Config)
    ensures OfReadReply([FUNC_READ_VAR, 1], WireItem(0x05, cfg.refusalSize, 0, []).Bytes(cfg.Fill())) == RefusedAs(cfg)
  {
    var data := WireItem(0x05, cfg.refusalSize, 0, []).Bytes(cfg.Fill());
    assert data == [0x05, cfg.refusalSize, 0, 0];
  }

  lemma WriteReplyMeans(ref: u16, code: byte)
    ensures var r := Interpret(WriteReply(ref, code), ref);
            r.Ok? && ParseWriteVarResponse(r.value.0, r.value.1)
                     == if code == RET_CODE_SUCCESS then None else Some(ReturnCode(code))
  {
    AckRoundTrip(ref, 0, 0, [FUNC_WRITE_VAR, 1], [code]);
  }

  /** The addresses for which the wire fields are wide enough. */
  predicate Addressable(db: int, start: int, size: int) {
    0 <= db < 0x1_0000 && 0 <= start < ADDRESSABLE && 0 <= size < 0x1_0000
  }

  /** What the device can transfer in one request: a range that exists, of a length it can report in bits. */
  predicate Serves(mem: Memory, key: (byte, u16), start: nat, n: nat) {
    InRange(mem, key, start, n) && n <= MAX_ITEM
  }

  /** The device's answer to a read request, as the client understands it. */
  lemma PlcAnswersRead(cfg: Config, now: Memory, ref: u16, addr: S7AnyAddress)
    requires Addressable(addr.dbNumber, addr.start, addr.size)
    ensures var key := (addr.area, addr.dbNumber);
            var (after, reply) := Act(cfg, now, DT(ReadRequest(ref, [addr])));
            var r := Interpret(reply, ref);
            && after == now && r.Ok?
            && var got := OfReadReply(r.value.0, r.value.1);
            if Serves(now, key, addr.start, addr.size)
            then got == ChunkRead.Bytes(now[key][addr.start..addr.start + addr.size]) else got == RefusedAs(cfg)
  {
    hide Decode, ReadRequest, Interpret, OfReadReply, ReadReply;
    DecodeReadRequest(ref, addr);
    var key := (addr.area, addr.dbNumber);
    if Serves(now, key, addr.start, addr.size) {
      ReadReplyMeans(cfg, ref, DataItem(cfg, now[key][addr.start..addr.start + addr.size]));
    } else {
      ReadReplyMeans(cfg, ref, WireItem(0x05, cfg.refusalSize, 0, []));
      RefusalIsNotData(cfg);
    }
  }

  /** The device's answer to a write request, as the client understands it. */
  lemma PlcAnswersWrite(cfg: Config, now: Memory, ref: u16, addr: S7AnyAddress, chunk: seq<byte>)
    requires Addressable(addr.dbNumber, addr.start, addr.size) && addr.size == |chunk|
    ensures var key := (addr.area, addr.dbNumber);
            var (after, reply) := Act(cfg, now, DT(WriteRequest(ref, addr, chunk)));
            var r := Interpret(reply, ref);
            && (r.Ok? && ParseWriteVarResponse(r.value.0, r.value.1).None? <==> Serves(now, key, addr.start, |chunk|))
            && after == if Serves(now, key, addr.start, |chunk|) then Stored(now, key, addr.start, chunk) else now
  {
    hide Decode, WriteRequest, Interpret, ParseWriteVarResponse, WriteReply;
    DecodeWriteRequest(ref, addr, chunk);
    assert chunk[..|chunk|] == chunk;
    UndecodableIsRefused(ref);
    WriteReplyMeans(ref, RET_CODE_SUCCESS);
    WriteReplyMeans(ref, 0x05);
  }

  lemma UndecodableIsRefused(ref: u16)
    ensures Interpret(Undecodable, ref).Err?
  {
  }

  /** No read, of whatever range, changes the device. */
  lemma ReadChunkLeavesMemory(s: State, cfg: Config, mem: Memory, addr: S7AnyAddress)
    requires Wired(s, cfg, mem)
    ensures var s' := ReadChunk(s, addr).0;
            Wired(s', cfg, mem) && MemoryAfter(cfg, mem, Sent(s')) == MemoryAfter(cfg, mem, Sent(s))
  {
    hide MemoryAfter, ReadRequest, Interpret, OfReadReply, Call, Decode;
    var (s1, done) := CtxErr(s);
    if done.None? {
      CallOnPlc(s1, cfg, mem, ReadRequest(NextRef(s1), [addr]));
      DecodeReadRequest(NextRef(s1), addr);
    }
  }

  /** On any connection: an accepted chunk was delivered, and a delivered chunk lands exactly if the device can take it. */
  lemma WriteChunkLands(s: State, cfg: Config, mem: Memory, addr: S7AnyAddress, chunk: seq<byte>)
    requires Wired(s, cfg, mem) && Addressable(addr.dbNumber, addr.start, addr.size) && addr.size == |chunk|
    ensures var (s', failed) := WriteChunk(s, addr, chunk);
            var key, now, after := (addr.area, addr.dbNumber), MemoryAfter(cfg, mem, Sent(s)), MemoryAfter(cfg, mem, Sent(s'));
            && Wired(s', cfg, mem)
            && ((after == now && failed.Some?)
                || after == if Serves(now, key, addr.start, |chunk|) then Stored(now, key, addr.start, chunk) else now)
  {
    hide MemoryAfter, Act, WriteRequest, Interpret, ParseWriteVarResponse, Call;
    var (s1, done) := CtxErr(s);
    if done.None? {
      CallOnPlc(s1, cfg, mem, WriteRequest(NextRef(s1), addr, chunk));
      PlcAnswersWrite(cfg, MemoryAfter(cfg, mem, Sent(s)), NextRef(s1), addr, chunk);
    }
  }

  lemma ReadChunkOnPlc(s: State, cfg: Config, mem: Memory, addr: S7AnyAddress)
    requires Quiet(s, cfg, mem) && Addressable(addr.dbNumber, addr.start, addr.size)
    ensures var (s', got) := ReadChunk(s, addr);
            var key, now := (addr.area, addr.dbNumber), MemoryAfter(cfg, mem, Sent(s));
            && s'.Valid() && s'.link.Some? && MemoryAfter(cfg, mem, Sent(s')) == now
            && (got.Bytes? ==>
                  && Quiet(s', cfg, mem) && Serves(now, key, addr.start, addr.size)
                  && got.data == now[key][addr.start..addr.start + addr.size])
  {
    hide Act, ReadRequest, Interpret, OfReadReply, Call;
    var (s1, done) := CtxErr(s);
    if done.None? {
      var req := ReadRequest(NextRef(s1), [addr]);
      CallOnQuiet(s1, cfg, mem, req);
      AnswerToNext(cfg, mem, Sent(s1), DT(req));
      PlcAnswersRead(cfg, MemoryAfter(cfg, mem, Sent(s)), NextRef(s1), addr);
    }
  }

  /** A chunk either lands completely or not at all; an acknowledged one has landed, and only the frame in flight can have. */
  lemma WriteChunkOnPlc(s: State, cfg: Config, mem: Memory, addr: S7AnyAddress, chunk: seq<byte>)
    requires Quiet(s, cfg, mem) && Addressable(addr.dbNumber, addr.start, addr.size) && addr.size == |chunk|
    ensures var (s', failed) := WriteChunk(s, addr, chunk);
            var key, now := (addr.area, addr.dbNumber), MemoryAfter(cfg, mem, Sent(s));
            var after := MemoryAfter(cfg, mem, Sent(s'));
            && s'.Valid() && s'.link.Some?
            && (s'.link.value.Lag() == 0 || (s'.link.value.Lag() == 1 && Sent(s')[..|Sent(s')| - 1] == Sent(s)))
            && (after == now || (Serves(now, key, addr.start, |chunk|) && after == Stored(now, key, addr.start, chunk)))
            && (failed.None? ==>
                  Quiet(s', cfg, mem) && Serves(now, key, addr.start, |chunk|) && after == Stored(now, key, addr.start, chunk))
            && (failed.Some? && s'.link.value.Lag() == 0 ==> after == now)
  {
    hide Act, WriteRequest, Interpret, ParseWriteVarResponse, Call;
    var (s1, done) := CtxErr(s);
    if done.None? {
      var req := WriteRequest(NextRef(s1), addr, chunk);
      CallOnQuiet(s1, cfg, mem, req);
      AnswerToNext(cfg, mem, Sent(s1), DT(req));
      PlcAnswersWrite(cfg, MemoryAfter(cfg, mem, Sent(s)), NextRef(s1), addr, chunk);
    }
  }
}
