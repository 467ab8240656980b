/** client/client.go: sendReceive and nextPDURef, and which reply an exchange can accept. */
module Exchange {
  import opened Bytes
  import opened S7
  import opened Link

  datatype Error =
    | NotConnected
    | RequestExceedsPDU
    | EncodeCOTP
    | Io(io: IoError)
    | DecodeCOTP
    | NotDataTPDU
    | ParseHeader(header: HeaderError)
    | PDURefMismatch(expected: u16, got: u16)
    | S7Error(errorClass: byte, errorCode: byte)
    | ShortPayload

  /** sendReceive after the frame has arrived. */
  function Interpret(reply: Reply, expected: u16): Result<(seq<byte>, seq<byte>), Error> {
    if reply.Undecodable? then Err(DecodeCOTP)
    else if !reply.tpdu.DT? then Err(NotDataTPDU)
    else
      match Parsed(reply.tpdu.userData)
      case Err(e) => Err(ParseHeader(e))
      case Ok((h, rest)) =>
        if expected != 0 && h.pduRef != expected then Err(PDURefMismatch(expected, h.pduRef))
        else if h.errorClass != 0 || h.errorCode != 0 then Err(S7Error(h.errorClass, h.errorCode))
        else if |rest| < h.paramLength + h.dataLength then Err(ShortPayload)
        else
          SplitCannotWrap(reply.tpdu.userData);
          Ok(Split(h, rest))
  }

  function OfSend(e: SendError): Error {
    match e
    case CannotEncode => EncodeCOTP
    case IoFailed(io) => Io(io)
  }

  function SendReceive(l: Link, pduSize: nat, req: seq<byte>, expected: u16)
    : (r: (Link, Result<(seq<byte>, seq<byte>), Error>))
    requires l.Valid()
    ensures r.0.Valid() && r.0.env == l.env
    ensures r.0.sent == l.sent || r.0.sent == l.sent + [DT(req)]
    ensures l.taken <= r.0.taken <= l.taken + 1
    ensures r.1.Ok? ==> r.0.taken > l.taken
    ensures r.0.taken > l.taken ==> r.0.sent == l.sent + [DT(req)] && r.1 == Interpret(r.0.ReplyAt(l.taken), expected)
  {
    if pduSize > 0 && |req| > pduSize then (l, Err(RequestExceedsPDU))
    else
      var (l', got) := Transfer(l, DT(req));
      match got
      case Err(e) => (l', Err(OfSend(e)))
      case Ok(reply) => (l', Interpret(reply, expected))
  }

  // ---------------------------------------------------------------- references

  /** The reference of the n-th request issued: a 32-bit counter cut to 16 bits. */
  function RefOf(issued: nat): u16 {
    issued % 0x1_0000
  }

  lemma CounterWrapKeepsRef(issued: nat)
    ensures (issued % 0x1_0000_0000) % 0x1_0000 == RefOf(issued)
  {
    assert issued == 0x1_0000 * (0x1_0000 * (issued / 0x1_0000_0000)) + issued % 0x1_0000_0000;
  }

  predicate Carries(t: Tpdu, ref: u16) {
    t.DT? && |t.userData| >= 6 && GetU16(t.userData, 4) == ref
  }

  /** The device answers with the reference of the request it answers. */
  ghost predicate Echoes(serve: seq<Tpdu> -> Reply) {
    forall h: seq<Tpdu>, ref: u16 :: h != [] && Carries(h[|h| - 1], ref) ==> EchoesRef(serve(h), ref)
  }

  ghost predicate EchoesRef(reply: Reply, ref: u16) {
    reply.Frame? && reply.tpdu.DT? && Parsed(reply.tpdu.userData).Ok? ==> Parsed(reply.tpdu.userData).value.0.pduRef == ref
  }

  /**
   Bookkeeping for the replies still unread: stamps[i] is how many references had been issued when
   the i-th unanswered request was sent.
   */
  ghost predicate Stamped(l: Link, stamps: seq<nat>, issued: nat) {
    && l.Valid() && |stamps| == l.Lag()
    && (forall i :: 0 <= i < |stamps| ==> stamps[i] <= issued && Carries(l.sent[l.taken + i], RefOf(stamps[i])))
    && (forall i, j :: 0 <= i < j < |stamps| ==> stamps[i] < stamps[j])
  }

  /** Fewer than 65536 references have been issued since the oldest request still unanswered. */
  ghost predicate Window(stamps: seq<nat>, issued: nat) {
    stamps != [] ==> issued - stamps[0] < 0x1_0000
  }

  /** The stamps after exchange number `stamp`, which went from l to l'. */
  ghost function StampsAfter(l: Link, l': Link, stamps: seq<nat>, stamp: nat): seq<nat>
    requires |stamps| == |l.sent| - l.taken
    requires l'.taken > l.taken ==> |l'.sent| > |l.sent|
  {
    var all := if |l'.sent| > |l.sent| then stamps + [stamp] else stamps;
    if l'.taken > l.taken then all[1..] else all
  }

  lemma StampsKept(l: Link, pduSize: nat, req: seq<byte>, stamps: seq<nat>, issued: nat)
    requires Stamped(l, stamps, issued) && Carries(DT(req), RefOf(issued + 1))
    ensures var l' := SendReceive(l, pduSize, req, RefOf(issued + 1)).0;
            Stamped(l', StampsAfter(l, l', stamps, issued + 1), issued + 1)
  {
    hide Interpret;
    var l' := SendReceive(l, pduSize, req, RefOf(issued + 1)).0;
    if |l'.sent| > |l.sent| {
      var all := stamps + [issued + 1];
      StampPushed(l, l'.(taken := l.taken), req, stamps, issued);
      if l'.taken > l.taken {
        StampPopped(l'.(taken := l.taken), l', all, issued + 1);
      }
    }
  }

  lemma StampPushed(l: Link, l': Link, req: seq<byte>, stamps: seq<nat>, issued: nat)
    requires Stamped(l, stamps, issued) && Carries(DT(req), RefOf(issued + 1))
    requires l'.sent == l.sent + [DT(req)] && l'.taken == l.taken
    ensures Stamped(l', stamps + [issued + 1], issued + 1)
  {
    hide Carries;
  }

  lemma StampPopped(l: Link, l': Link, stamps: seq<nat>, issued: nat)
    requires Stamped(l, stamps, issued) && l'.sent == l.sent && l'.taken == l.taken + 1 && stamps != []
    ensures Stamped(l', stamps[1..], issued)
  {
    hide Carries;
    forall i | 0 <= i < |stamps[1..]| ensures Carries(l'.sent[l'.taken + i], RefOf(stamps[1..][i])) {
      assert Carries(l.sent[l.taken + (i + 1)], RefOf(stamps[i + 1]));
    }
  }

  lemma ModuloDistance(a: nat, b: nat)
    requires a <= b
    ensures RefOf(a) == RefOf(b) <==> (b - a) % 0x1_0000 == 0
  {
    var qa, qb := a / 0x1_0000, b / 0x1_0000;
    assert b - a == 0x1_0000 * (qb - qa) + (b % 0x1_0000 - a % 0x1_0000);
  }

  lemma OldestReplyEchoes(l: Link, stamps: seq<nat>, issued: nat)
    requires Stamped(l, stamps, issued) && Echoes(l.env.serve) && stamps != []
    ensures EchoesRef(l.ReplyAt(l.taken), RefOf(stamps[0]))
  {
    var h := l.sent[..l.taken + 1];
    assert Carries(h[|h| - 1], RefOf(stamps[0]));
  }

  /**
   Exactly when a stale reply is taken for the answer: a well-formed, error-free reply to an older
   request is accepted if and only if the new reference is 0 or the counter has gone a whole number
   of times round 65536 since that older request.
   */
  lemma StaleAcceptedExactly(l: Link, pduSize: nat, req: seq<byte>, stamps: seq<nat>, issued: nat)
    requires Stamped(l, stamps, issued) && Echoes(l.env.serve) && stamps != []
    requires Carries(DT(req), RefOf(issued + 1)) && |req| <= MAX_USER_DATA && (pduSize > 0 ==> |req| <= pduSize)
    requires l.env.io(l.clock) == Delivered && Interpret(l.ReplyAt(l.taken), 0).Ok?
    ensures SendReceive(l, pduSize, req, RefOf(issued + 1)).1.Ok?
       <==> RefOf(issued + 1) == 0 || (issued + 1 - stamps[0]) % 0x1_0000 == 0
  {
    RepliesStay(l, SendReceive(l, pduSize, req, RefOf(issued + 1)).0, l.taken);
    OldestReplyEchoes(l, stamps, issued);
    ModuloDistance(stamps[0], issued + 1);
  }

  lemma AcceptedAcrossLag(l: Link, pduSize: nat, req: seq<byte>, stamps: seq<nat>, issued: nat)
    requires Stamped(l, stamps, issued) && Echoes(l.env.serve) && stamps != []
    requires Carries(DT(req), RefOf(issued + 1))
    ensures SendReceive(l, pduSize, req, RefOf(issued + 1)).1.Ok?
        ==> RefOf(issued + 1) == 0 || (issued + 1 - stamps[0]) % 0x1_0000 == 0
  {
    var (l', r) := SendReceive(l, pduSize, req, RefOf(issued + 1));
    if r.Ok? {
      RepliesStay(l, l', l.taken);
      OldestReplyEchoes(l, stamps, issued);
      ModuloDistance(stamps[0], issued + 1);
    }
  }

  /** Inside the window and with a non-zero reference, nothing is accepted while a reply is unread. */
  lemma LagBlocks(l: Link, pduSize: nat, req: seq<byte>, stamps: seq<nat>, issued: nat)
    requires Stamped(l, stamps, issued) && Echoes(l.env.serve) && Window(stamps, issued + 1)
    requires Carries(DT(req), RefOf(issued + 1)) && RefOf(issued + 1) != 0 && l.Lag() > 0
    ensures SendReceive(l, pduSize, req, RefOf(issued + 1)).1.Err?
  {
    AcceptedAcrossLag(l, pduSize, req, stamps, issued);
  }

  // ---------------------------------------------------------------- what an operation works with

  /** A client's connection (None: not connected), negotiated PDU size, references issued, and the context's script. */
  datatype State = State(link: Option<Link>, pduSize: nat, issued: nat, ctx: nat -> Option<CtxError>, checks: nat) {
    predicate Valid() {
      link.Some? ==> link.value.Valid()
    }
  }

  /** The next reference is not 0, and fewer than 65536 were issued since the oldest request still unanswered. */
  ghost predicate StaleRefused(s: State)
    requires s.Valid() && s.link.Some?
  {
    NextRef(s) != 0 && exists stamps :: Stamped(s.link.value, stamps, s.issued) && Window(stamps, s.issued + 1)
  }

  /** Then a request made while a reply is unread fails. */
  lemma LaggedCallFails(s: State, req: seq<byte>)
    requires s.Valid() && s.link.Some? && s.link.value.Lag() > 0 && Echoes(s.link.value.env.serve) && StaleRefused(s)
    requires Carries(DT(req), NextRef(s))
    ensures Call(s, req).1.Err?
  {
    var stamps :| Stamped(s.link.value, stamps, s.issued) && Window(stamps, s.issued + 1);
    LagBlocks(s.link.value, s.pduSize, req, stamps, s.issued);
  }

  /** One ctx.Err() check, or one cancellable delay. */
  function CtxErr(s: State): (State, Option<CtxError>) {
    (s.(checks := s.checks + 1), s.ctx(s.checks))
  }

  /** The reference the next request carries. */
  function NextRef(s: State): u16 {
    RefOf(s.issued + 1)
  }

  /** nextPDURef followed by sendReceive of a request built around that reference. */
  function Call(s: State, req: seq<byte>): (r: (State, Result<(seq<byte>, seq<byte>), Error>))
    requires s.Valid()
    ensures r.0.Valid() && r.0.pduSize == s.pduSize && r.0.issued == s.issued + 1 && r.0.ctx == s.ctx
    ensures r.0.link.Some? <==> s.link.Some?
    ensures r.1.Ok? ==> s.link.Some?
  {
    var s' := s.(issued := s.issued + 1);
    if s.link.None? then (s', Err(NotConnected)) else
    var (l, r) := SendReceive(s.link.value, s.pduSize, req, NextRef(s));
    (s'.(link := Some(l)), r)
  }
}
