/**
 client/client.go, client/readwrite.go and client/blocks.go as the methods of one object: every
 method leaves the fields exactly as the functions of the other modules say, and keeps the
 resource invariant over all the connections the client has ever opened.
 */
module ClientObject {
  import opened Bytes
  import opened S7
  import opened Tsap
  import opened PduReadWrite
  import opened PduBlocks
  import opened Link
  import opened Exchange
  import opened Handshake
  import RW = ReadWrite
  import UP = Upload
  import OP = Operations

  /** A transport connection. */
  class Conn {
    var open: bool
    var link: Link

    constructor (env: Env)
      ensures open && link == Fresh(env)
    {
      open, link := true, Fresh(env);
    }

    method Close()
      modifies this`open
      ensures !open
    {
      open := false;
    }
  }

  class Client {
    const opts: Options
    const dial: nat -> DialOutcome
    const ctx: nat -> Option<CtxError>

    var conn: Conn?
    var rack: int
    var slot: int
    var localTSAP: u16
    var remoteTSAP: u16
    var pduSize: u16
    var maxAmqCalling: u16
    var maxAmqCalled: u16
    var pduRef: int
    var dials: nat
    var checks: nat

    ghost var issued: nat
    ghost var dialled: set<Conn>

    /** No connection: no negotiated values. */
    ghost predicate Cleared()
      reads this
    {
      rack == slot == 0 && localTSAP == remoteTSAP == 0 && pduSize == 0 && maxAmqCalling == maxAmqCalled == 0
    }

    /** Of all the connections ever opened, exactly the client's current one is open. */
    ghost predicate Valid()
      reads this, dialled
    {
      && (forall c :: c in dialled ==> (c.open <==> c == conn))
      && (conn != null ==> conn in dialled && conn.link.Valid())
      && (conn == null ==> Cleared())
      && pduRef == issued % 0x1_0000_0000
    }

    ghost function Memo(): (int, int, u16, u16, u16, u16, u16)
      reads this
    {
      (rack, slot, localTSAP, remoteTSAP, pduSize, maxAmqCalling, maxAmqCalled)
    }

    /** The connection and the negotiated fields are those of a session. */
    ghost predicate Holds(s: Session)
      reads this, conn
    {
      && conn != null && conn.link == s.link
      && Memo() == (s.rack, s.slot, s.localTSAP, s.remoteTSAP, s.setup.pduSize, s.setup.maxAmqCalling, s.setup.maxAmqCalled)
    }

    ghost function Now(): State
      reads this, conn
    {
      State(if conn == null then None else Some(conn.link), pduSize, issued, ctx, checks)
    }

    ghost function Scripted(): Script
      reads this
    {
      Script(dial, ctx, dials, checks)
    }

    constructor (opts: Options, dial: nat -> DialOutcome, ctx: nat -> Option<CtxError>)
      ensures Valid() && conn == null && dialled == {} && issued == 0
      ensures this.opts == opts && this.dial == dial && this.ctx == ctx && dials == 0 && checks == 0
    {
      this.opts, this.dial, this.ctx := opts, dial, ctx;
      conn, rack, slot, localTSAP, remoteTSAP, pduSize, maxAmqCalling, maxAmqCalled := null, 0, 0, 0, 0, 0, 0, 0;
      pduRef, dials, checks, issued, dialled := 0, 0, 0, 0, {};
    }

    // -------------------------------------------------------------- session lifecycle

    method CtxErr() returns (done: Option<CtxError>)
      modifies this`checks
      ensures done == ctx(old(checks)) && checks == old(checks) + 1
    {
      done := ctx(checks);
      checks := checks + 1;
    }

    method PerformCOTPConnect(c: Conn, local: u16, remote: u16) returns (failed: Option<ConnectError>)
      requires c.link.Valid()
      modifies this`checks, c`link
      ensures checks == old(checks) + 1
      ensures (c.link, failed) == COTPConnect(old(c.link), ctx(old(checks)), local, remote)
    {
      var done := CtxErr();
      if done.Some? {
        return Some(ContextDone(done.value));
      }
      var (l, got) := Transfer(c.link, CR(local, remote));
      c.link := l;
      if got.Err? {
        return Some(SendFailed(got.error));
      }
      if got.value.Undecodable? {
        return Some(ConnectError.DecodeCOTP);
      }
      if !got.value.tpdu.CC? {
        return Some(UnexpectedTPDU);
      }
      return None;
    }

    method PerformS7Setup(c: Conn, ref: u16) returns (r: Result<Setup, ConnectError>)
      requires c.link.Valid()
      modifies this`checks, c`link
      ensures checks == old(checks) + 1
      ensures (c.link, r) == S7Setup(old(c.link), ctx(old(checks)), ref, opts)
    {
      var done := CtxErr();
      if done.Some? {
        return Err(ContextDone(done.value));
      }
      var (l, got) := Transfer(c.link, DT(SetupRequest(ref, opts.maxAmqCalling, opts.maxAmqCalled, opts.maxPDU)));
      c.link := l;
      if got.Err? {
        return Err(SendFailed(got.error));
      }
      r := ReadSetup(got.value, ref);
    }

    /** The handshake on a connection just dialled; the connection is closed again if any step fails. */
    method Negotiate(c: Conn, rack: int, slot: int) returns (r: Result<(u16, u16, Setup), ConnectError>)
      requires c.link.Valid() && c.link == Fresh(c.link.env) && c.open
      modifies this`checks, c
      ensures c.open == r.Ok?
      ensures var (checks', s) := Attempt(opts, Accepted(old(c.link.env)), ctx, old(checks), rack, slot);
              && checks == checks'
              && match r
                 case Err(e) => s == Err(e)
                 case Ok((local, remote, setup)) => s == Ok(Session(c.link, rack, slot, local, remote, setup))
    {
      hide COTPConnect, S7Setup, TSAPs;
      var tsaps := TSAPs(opts, rack, slot);
      if tsaps.Err? {
        c.Close();
        return Err(tsaps.error);
      }
      var (local, remote) := tsaps.value;
      var failed := PerformCOTPConnect(c, local, remote);
      if failed.Some? {
        c.Close();
        return Err(failed.value);
      }
      var setup := PerformS7Setup(c, 1);
      if setup.Err? {
        c.Close();
        return Err(setup.error);
      }
      return Ok((local, remote, setup.value));
    }

    /** The swap: the new connection and its values go in, then the old connection is closed. */
    method Install(c: Conn, rack: int, slot: int, local: u16, remote: u16, setup: Setup)
      requires Valid() && c !in dialled && c.open && c.link.Valid()
      modifies this, conn
      ensures Valid() && conn == c && dialled == old(dialled) + {c} && c.link == old(c.link)
      ensures Memo() == (rack, slot, local, remote, setup.pduSize, setup.maxAmqCalling, setup.maxAmqCalled)
      ensures dials == old(dials) && checks == old(checks) && issued == old(issued)
    {
      var oldConn := conn;
      conn := c;
      dialled := dialled + {c};
      this.rack, this.slot := rack, slot;
      localTSAP, remoteTSAP := local, remote;
      pduSize, maxAmqCalling, maxAmqCalled := setup.pduSize, setup.maxAmqCalling, setup.maxAmqCalled;
      if oldConn != null {
        oldConn.Close();
      }
    }

    /** Dial and shake hands first; swap the new connection in, and close the old one, only after both succeeded. */
    method ConnectOnce(rack: int, slot: int) returns (failed: Option<ConnectError>)
      requires Valid()
      modifies this, conn
      ensures Valid() && old(dialled) <= dialled && fresh(dialled - old(dialled))
      ensures dials == old(dials) + 1 && issued == old(issued)
      ensures var (checks', r) := Attempt(opts, dial(old(dials)), ctx, old(checks), rack, slot);
              && checks == checks'
              && match r
                 case Err(e) => failed == Some(e) && conn == old(conn) && Memo() == old(Memo())
                                && (conn != null ==> conn.link == old(conn.link))
                 case Ok(s) => failed == None && Holds(s) && conn !in old(dialled)
    {
      hide Attempt;
      var outcome := dial(dials);
      dials := dials + 1;
      if outcome.Refused? {
        RefusedDial(opts, outcome.timedOut, ctx, checks, rack, slot);
        return Some(DialFailed(outcome.timedOut));
      }
      var c := new Conn(outcome.env);
      var r := Negotiate(c, rack, slot);
      if r.Err? {
        dialled := dialled + {c};
        return Some(r.error);
      }
      var (local, remote, setup) := r.value;
      Install(c, rack, slot, local, remote, setup);
      return None;
    }

    /** One turn of auto-connect's loops: the context check and the attempt. `pairs` are this pair and those still to come. */
    method TryPair(rack: int, slot: int, ghost pairs: seq<(int, int)>) returns (over: bool, failed: Option<ConnectError>)
      requires Valid() && pairs != [] && pairs[0] == (rack, slot)
      modifies this, conn
      ensures Valid() && old(dialled) <= dialled && fresh(dialled - old(dialled)) && issued == old(issued)
      ensures !over || failed.Some? ==> conn == old(conn) && Memo() == old(Memo()) && (conn != null ==> conn.link == old(conn.link))
      ensures !over ==> FirstSuccess(opts, old(Scripted()), pairs) == FirstSuccess(opts, Scripted(), pairs[1..])
      ensures over ==> FirstSuccess(opts, old(Scripted()), pairs).0 == Scripted()
                       && match FirstSuccess(opts, old(Scripted()), pairs).1
                          case Err(e) => failed == Some(e)
                          case Ok(s) => failed == None && Holds(s) && conn !in old(dialled)
    {
      hide Attempt;
      var done := CtxErr();
      if done.Some? {
        return true, Some(ContextDone(done.value));
      }
      failed := ConnectOnce(rack, slot);
      over := failed.None?;
    }

    /** Auto-connect installs the session of the first pair in its order that succeeds; failing, it changes no session field. */
    method AutoConnect() returns (failed: Option<ConnectError>)
      requires Valid()
      modifies this, conn
      ensures Valid() && old(dialled) <= dialled && fresh(dialled - old(dialled)) && issued == old(issued)
      ensures var (sc, r) := FirstSuccess(opts, old(Scripted()), if opts.bruteRackSlot then BrutePairs() else COMMON_PAIRS);
              && Scripted() == sc
              && match r
                 case Err(e) => failed == Some(e) && conn == old(conn) && Memo() == old(Memo())
                                && (conn != null ==> conn.link == old(conn.link))
                 case Ok(s) => failed == None && Holds(s) && conn !in old(dialled)
    {
      hide FirstSuccess, BrutePairs;
      ghost var all := if opts.bruteRackSlot then BrutePairs() else COMMON_PAIRS;
      ghost var start := Scripted();
      var over;
      if opts.bruteRackSlot {
        for rack := 0 to 4
          invariant Valid() && old(dialled) <= dialled && fresh(dialled - old(dialled)) && issued == old(issued)
          invariant conn == old(conn) && Memo() == old(Memo()) && (conn != null ==> conn.link == old(conn.link))
          invariant FirstSuccess(opts, start, all) == FirstSuccess(opts, Scripted(), all[6 * rack..])
        {
          for slot := 0 to 6
            invariant Valid() && old(dialled) <= dialled && fresh(dialled - old(dialled)) && issued == old(issued)
            invariant conn == old(conn) && Memo() == old(Memo()) && (conn != null ==> conn.link == old(conn.link))
            invariant FirstSuccess(opts, start, all) == FirstSuccess(opts, Scripted(), all[6 * rack + slot..])
          {
            PairAt(rack, slot);
            assert all[6 * rack + slot..][1..] == all[6 * rack + slot + 1..];
            over, failed := TryPair(rack, slot, all[6 * rack + slot..]);
            if over {
              return;
            }
          }
        }
        NoPairsLeft(opts, Scripted());
        assert all[24..] == [];
        return Some(NoPairWorked);
      }
      for i := 0 to |COMMON_PAIRS|
        invariant Valid() && old(dialled) <= dialled && fresh(dialled - old(dialled)) && issued == old(issued)
        invariant conn == old(conn) && Memo() == old(Memo()) && (conn != null ==> conn.link == old(conn.link))
        invariant FirstSuccess(opts, start, all) == FirstSuccess(opts, Scripted(), all[i..])
      {
        assert all[i..][1..] == all[i + 1..];
        over, failed := TryPair(COMMON_PAIRS[i].0, COMMON_PAIRS[i].1, all[i..]);
        if over {
          return;
        }
      }
      NoPairsLeft(opts, Scripted());
      assert all[|COMMON_PAIRS|..] == [];
      return Some(NoPairWorked);
    }

    ghost predicate OptionsAcceptable() {
      && opts.port >= 0 && opts.timeout >= 0 && opts.maxPDU >= 1
      && (opts.autoRackSlot || ValidateRackSlot(opts.rack, opts.slot).None?)
    }

    /** On success a new session is in place and every older connection is closed; on failure nothing of the session changed. */
    method Connect() returns (failed: Option<ConnectError>)
      requires Valid()
      modifies this, conn
      ensures Valid() && old(dialled) <= dialled && fresh(dialled - old(dialled)) && issued == old(issued)
      ensures !OptionsAcceptable() ==> failed == Some(InvalidOptions) && dials == old(dials)
      ensures failed.Some? ==> conn == old(conn) && Memo() == old(Memo()) && (conn != null ==> conn.link == old(conn.link))
      ensures failed.None? ==> conn != null && conn !in old(dialled) && conn.link.Lag() == 0
      ensures failed.None? && !(opts.autoRackSlot && !opts.useExplicit) ==> (rack, slot) == (opts.rack, opts.slot)
      ensures OptionsAcceptable() && !(opts.autoRackSlot && !opts.useExplicit) ==>
                var (checks', r) := Attempt(opts, dial(old(dials)), ctx, old(checks), opts.rack, opts.slot);
                checks == checks' && match r case Err(e) => failed == Some(e) case Ok(s) => failed == None && Holds(s)
      ensures OptionsAcceptable() && opts.autoRackSlot && !opts.useExplicit ==>
                var (sc, r) := FirstSuccess(opts, old(Scripted()), if opts.bruteRackSlot then BrutePairs() else COMMON_PAIRS);
                Scripted() == sc && match r case Err(e) => failed == Some(e) case Ok(s) => failed == None && Holds(s)
      ensures var op := OP.Connecting(if failed.Some? then None else Some((conn.link, pduSize)));
              OP.ValidOp(op) && Now() == OP.Atomic(old(Now()), op).0.(checks := checks)
    {
      if opts.port < 0 || opts.timeout < 0 || opts.maxPDU < 1 {
        return Some(InvalidOptions);
      }
      if !opts.autoRackSlot {
        if opts.rack < 0 || opts.slot < 0 {
          return Some(InvalidOptions);
        }
        if ValidateRackSlot(opts.rack, opts.slot).Some? {
          return Some(InvalidOptions);
        }
      }
      if opts.autoRackSlot && !opts.useExplicit {
        ghost var sc, pairs := Scripted(), if opts.bruteRackSlot then BrutePairs() else COMMON_PAIRS;
        failed := AutoConnect();
        if failed.None? {
          ghost var k, at := AutoConnectTriesInOrder(opts, sc, pairs);
        }
        return;
      }
      failed := ConnectOnce(opts.rack, opts.slot);
    }

    /** Closes the current connection, if any, and forgets everything negotiated. */
    method Close()
      requires Valid()
      modifies this, conn
      ensures Valid() && conn == null && dialled == old(dialled) && issued == old(issued)
      ensures forall c :: c in dialled ==> !c.open
      ensures Now() == OP.Atomic(old(Now()), OP.Closing).0
    {
      if conn == null {
        return;
      }
      conn.Close();
      conn := null;
      rack, slot := 0, 0;
      localTSAP, remoteTSAP := 0, 0;
      pduSize := 0;
      maxAmqCalling, maxAmqCalled := 0, 0;
    }

    // -------------------------------------------------------------- requests

    method NextPDURef() returns (ref: u16)
      requires Valid()
      modifies this`pduRef, this`issued
      ensures Valid() && issued == old(issued) + 1 && ref == RefOf(issued)
    {
      CounterWrapKeepsRef(issued + 1);
      pduRef := (pduRef + 1) % 0x1_0000_0000;
      issued := issued + 1;
      ref := pduRef % 0x1_0000;
    }

    method SendReceive(req: seq<byte>, expected: u16) returns (r: Result<(seq<byte>, seq<byte>), Error>)
      requires Valid()
      modifies conn
      ensures Valid()
      ensures if conn == null then r == Err(NotConnected)
              else (conn.link, r) == Exchange.SendReceive(old(conn.link), pduSize, req, expected)
    {
      if conn == null {
        return Err(NotConnected);
      }
      if pduSize > 0 && |req| > pduSize {
        return Err(RequestExceedsPDU);
      }
      var (l, got) := Transfer(conn.link, DT(req));
      conn.link := l;
      if got.Err? {
        return Err(OfSend(got.error));
      }
      var reply := got.value;
      if reply.Undecodable? {
        return Err(Error.DecodeCOTP);
      }
      if !reply.tpdu.DT? {
        return Err(NotDataTPDU);
      }
      var parsed := ParseS7Header(reply.tpdu.userData);
      if parsed.Err? {
        return Err(ParseHeader(parsed.error));
      }
      var (header, rest) := parsed.value;
      if expected != 0 && header.pduRef != expected {
        return Err(PDURefMismatch(expected, header.pduRef));
      }
      if header.errorClass != 0 || header.errorCode != 0 {
        return Err(S7Error(header.errorClass, header.errorCode));
      }
      if |rest| < header.paramLength + header.dataLength {
        return Err(ShortPayload);
      }
      SplitCannotWrap(reply.tpdu.userData);
      return Ok(Split(header, rest));
    }

    /** One turn of ReadArea's loop: the cancellation check, the request, and what its reply comes to. */
    method ReadChunk(addr: S7AnyAddress) returns (got: RW.ChunkRead)
      requires Valid()
      modifies this`pduRef, this`issued, this`checks, conn
      ensures Valid()
      ensures (Now(), got) == RW.ReadChunk(old(Now()), addr)
    {
      hide Exchange.SendReceive, ParsedReadResponse, ReadRequest;
      var done := CtxErr();
      if done.Some? {
        return RW.OfError(Io(Cancelled(done.value)));
      }
      var ref := NextPDURef();
      var req := EncodeReadVarRequest(ref, [addr]);
      var r := SendReceive(req, ref);
      if r.Err? {
        return RW.OfError(r.error);
      }
      var items := ParseReadVarResponse(r.value.0, r.value.1);
      if items.Err? {
        return RW.Ends(RW.ProtocolErr, true, 0, None);
      }
      if |items.value| == 0 {
        return RW.Ends(RW.EmptyRead, true, 0, None);
      }
      var item := items.value[0];
      if item.returnCode != RET_CODE_SUCCESS {
        return RW.Ends(RW.Rejected, true, item.returnCode, None);
      }
      return RW.Bytes(item.data.GetOr([]));
    }

    /** The object's state and the result are what the function of the old state says. */
    method ReadArea(addr: RW.Address) returns (r: Result<RW.ReadResult, RW.ValidationError>)
      requires Valid()
      modifies this`pduRef, this`issued, this`checks, conn
      ensures Valid()
      ensures (Now(), r) == RW.ReadArea(old(Now()), addr)
    {
      hide RW.ReadChunk;
      var invalid := RW.ValidateAddress(addr);
      if invalid.Some? {
        return Err(invalid.value);
      }
      var maxData := pduSize as int - READ_VAR_REQUEST_OVERHEAD;
      if maxData < 1 {
        maxData := 200;
      }
      var result: seq<byte> := [];
      var offset := addr.start;
      var chunks := RW.PlanReadChunks(addr.size, maxData);
      ghost var whole := RW.ReadArea(Now(), addr);
      for i := 0 to |chunks|
        invariant Valid()
        invariant var (s', out) := RW.ReadChunks(Now(), addr.area, addr.dbNumber, offset, chunks[i..], result, addr.size);
                  whole == (s', Ok(out))
      {
        assert chunks[i..][1..] == chunks[i + 1..];
        var got := ReadChunk(S7AnyAddress(addr.area, addr.dbNumber, offset, chunks[i]));
        if got.Ends? {
          if got.keepsData {
            return Ok(RW.ReadResult(got.status, addr.size, |result|, result, got.returnCode, got.cause));
          }
          return Ok(RW.ReadResult(got.status, addr.size, 0, [], got.returnCode, got.cause));
        }
        result := result + got.data;
        offset := offset + chunks[i];
      }
      return Ok(RW.ReadResult(RW.ClassifyReadOutcome(addr.size, |result|), addr.size, |result|, result, 0, None));
    }

    method WriteChunk(addr: S7AnyAddress, chunk: seq<byte>) returns (failed: Option<RW.WriteError>)
      requires Valid()
      modifies this`pduRef, this`issued, this`checks, conn
      ensures Valid()
      ensures (Now(), failed) == RW.WriteChunk(old(Now()), addr, chunk)
    {
      hide Exchange.SendReceive, ParseWriteVarResponse, WriteRequest;
      var done := CtxErr();
      if done.Some? {
        return Some(RW.Failed(Io(Cancelled(done.value))));
      }
      var ref := NextPDURef();
      var req := EncodeWriteVarRequest(ref, addr, chunk);
      var got := SendReceive(req, ref);
      if got.Err? {
        return Some(RW.Failed(got.error));
      }
      var refused := ParseWriteVarResponse(got.value.0, got.value.1);
      if refused.Some? {
        return Some(RW.Refused(refused.value));
      }
      return None;
    }

    method WriteArea(addr: RW.Address, data: seq<byte>) returns (failed: Option<RW.WriteError>)
      requires Valid()
      modifies this`pduRef, this`issued, this`checks, conn
      ensures Valid()
      ensures (Now(), failed) == RW.WriteArea(old(Now()), addr, data)
    {
      hide RW.WriteChunk;
      var invalid := RW.ValidateAddress(addr);
      if invalid.Some? {
        return Some(RW.Invalid(invalid.value));
      }
      ghost var whole := RW.WriteArea(Now(), addr, data);
      var done := CtxErr();
      if done.Some? {
        return Some(RW.Failed(Io(Cancelled(done.value))));
      }
      var maxPayload := pduSize as int - WRITE_VAR_REQUEST_OVERHEAD;
      if maxPayload < 1 {
        maxPayload := 200;
      }
      var chunks := RW.PlanReadChunks(|data|, maxPayload);
      RW.PlanIsExact(|data|, maxPayload);
      var offset: nat := 0;
      for i := 0 to |chunks|
        invariant Valid() && offset + Sum(chunks[i..]) == |data|
        invariant whole == RW.WriteChunks(Now(), addr.area, addr.dbNumber, addr.start, data, offset, chunks[i..])
      {
        var n := chunks[i];
        assert chunks[i..][1..] == chunks[i + 1..];
        var chunk := data[offset..offset + n];
        failed := WriteChunk(S7AnyAddress(addr.area, addr.dbNumber, addr.start + offset, |chunk|), chunk);
        if failed.Some? {
          return;
        }
        offset := offset + n;
      }
      return None;
    }

    method UploadBlock(blockType: byte, num: int) returns (r: Result<seq<byte>, UP.UploadError>)
      requires Valid()
      modifies this`pduRef, this`issued, this`checks, conn
      ensures Valid()
      ensures (Now(), r) == UP.UploadBlock(old(Now()), blockType, num)
    {
      hide Exchange.SendReceive, ParseUploadResponse, ParseStartUploadResponse, StartUploadRequest, SessionRequest, UP.UploadChunks;
      if num < 0 || num > 0xFFFF {
        return Err(UP.BlockNumberOutOfRange);
      }
      var ref := NextPDURef();
      var started := SendReceive(StartUploadRequest(ref, blockType, num), ref);
      if started.Err? {
        return Err(UP.StartFailed(started.error));
      }
      var session := ParseStartUploadResponse(started.value.0);
      if session.None? {
        return Err(UP.StartUnparsable);
      }
      r := UploadSegments(session.value);
      var endRef := NextPDURef();
      var ignored := SendReceive(EndUploadRequest(endRef, session.value), endRef);
    }

    /** The body of UploadBlock that its deferred end-upload encloses. */
    method UploadSegments(id: seq<byte>) returns (r: Result<seq<byte>, UP.UploadError>)
      requires Valid()
      modifies this`pduRef, this`issued, this`checks, conn
      ensures Valid()
      ensures (Now(), r) == UP.UploadChunks(old(Now()), id, UP.MAX_UPLOAD_CHUNKS, [])
    {
      hide UP.TryChunk;
      var payload: seq<byte> := [];
      var done := false;
      ghost var whole := UP.UploadChunks(Now(), id, UP.MAX_UPLOAD_CHUNKS, []);
      for i := 0 to UP.MAX_UPLOAD_CHUNKS
        invariant Valid() && !done
        invariant whole == UP.UploadChunks(Now(), id, UP.MAX_UPLOAD_CHUNKS - i, payload)
      {
        var chunk := UploadSegment(id);
        if chunk.Err? {
          return Err(chunk.error);
        }
        assert payload + [] == payload;
        if |chunk.value.data| > 0 {
          payload := payload + chunk.value.data;
        }
        if chunk.value.done {
          done := true;
          break;
        }
      }
      if !done {
        return Err(UP.TooManyChunks);
      }
      if |payload| == 0 {
        return Err(UP.NoPayload);
      }
      return Ok(payload);
    }

    /** One attempt at a segment: the segment, the error that ends the upload, or the error to retry after. */
    method UploadAttempt(id: seq<byte>, ghost left: nat, ghost last: Error)
      returns (again: bool, lastErr: Error, r: Result<UploadChunk, UP.UploadError>)
      requires Valid() && left > 0
      modifies this`pduRef, this`issued, this`checks, conn
      ensures Valid()
      ensures again ==> UP.TryChunk(old(Now()), id, left, last) == UP.TryChunk(Now(), id, left - 1, lastErr)
      ensures !again ==> UP.TryChunk(old(Now()), id, left, last) == (Now(), r)
    {
      hide Exchange.SendReceive, ParseUploadResponse, UploadRequest, UP.IsUploadProtocolError;
      again, lastErr, r := false, NotConnected, Err(UP.ChunkUnparsable);
      var done := CtxErr();
      if done.Some? {
        return false, lastErr, Err(UP.ContextDone(done.value));
      }
      var ref := NextPDURef();
      var got := SendReceive(UploadRequest(ref, id), ref);
      if got.Err? {
        if UP.IsUploadProtocolError(got.error) {
          return false, lastErr, Err(UP.ChunkRefused(got.error));
        }
        return true, got.error, r;
      }
      var chunk := ParseUploadResponse(got.value.0, got.value.1);
      if chunk.Some? {
        r := Ok(chunk.value);
      }
    }

    method UploadSegment(id: seq<byte>) returns (r: Result<UploadChunk, UP.UploadError>)
      requires Valid()
      modifies this`pduRef, this`issued, this`checks, conn
      ensures Valid()
      ensures (Now(), r) == UP.TryChunk(old(Now()), id, UP.MAX_UPLOAD_RETRIES, NotConnected)
    {
      hide Call;
      var lastErr := NotConnected;
      ghost var whole := UP.TryChunk(Now(), id, UP.MAX_UPLOAD_RETRIES, NotConnected);
      for attempt := 0 to UP.MAX_UPLOAD_RETRIES
        invariant Valid()
        invariant whole == UP.TryChunk(Now(), id, UP.MAX_UPLOAD_RETRIES - attempt, lastErr)
      {
        var again;
        again, lastErr, r := UploadAttempt(id, UP.MAX_UPLOAD_RETRIES - attempt, lastErr);
        if !again {
          return;
        }
      }
      return Err(UP.RetriesExhausted(lastErr));
    }
  }
}
