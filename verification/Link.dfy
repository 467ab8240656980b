/**
 One TCP connection to a device, as its client sees it: frames arrive whole and in order, and the
 device answers every frame it receives once, in order. Whatever state the device keeps, its k-th
 reply is a function of the first k frames, so the connection is the list of frames sent and the
 number of replies taken. What each step of I/O does is decided by an arbitrary script.
 */
module Link {
  import opened Bytes
  import opened S7

  datatype Tpdu = CR(local: u16, remote: u16) | CC | DT(userData: seq<byte>) | Other

  // A frame received: what COTP decoding makes of it. User data of one TPKT frame is bounded.
  datatype AnyReply = Undecodable | Frame(tpdu: Tpdu)
  type Reply = r: AnyReply | r.Frame? && r.tpdu.DT? ==> |r.tpdu.userData| <= MAX_USER_DATA witness Undecodable

  datatype CtxError = DeadlineExceeded | Canceled
  /** A context that never ends. */
  const NEVER: nat -> Option<CtxError> := _ => None

  datatype IoError = Cancelled(ctx: CtxError) | NetTimeout | NetBroken

  datatype IoEvent =
    | EncodeFails                  // the COTP frame cannot be built
    | SendFails(error: IoError)    // nothing is delivered
    | DoneAfterSend(ctx: CtxError) // delivered, then the context turns out to be done
    | ReceiveFails(error: IoError) // delivered, the reply is left unread
    | Delivered                    // delivered, and the oldest unread reply is taken

  datatype Env = Env(io: nat -> IoEvent, serve: seq<Tpdu> -> Reply)

  datatype Link = Link(env: Env, clock: nat, sent: seq<Tpdu>, taken: nat) {
    predicate Valid() {
      taken <= |sent|
    }

    /** How many requests have been delivered whose replies are still unread. */
    function Lag(): nat
      requires Valid()
    {
      |sent| - taken
    }

    /** The device's reply number k (from 0). */
    function ReplyAt(k: nat): Reply
      requires k < |sent|
    {
      env.serve(sent[..k + 1])
    }
  }

  datatype SendError = CannotEncode | IoFailed(error: IoError)

  function Fresh(env: Env): Link {
    Link(env, 0, [], 0)
  }

  predicate TooLong(t: Tpdu) {
    t.DT? && |t.userData| > MAX_USER_DATA
  }

  /** Send one frame and take one reply; a frame TPKT cannot carry is a send failure. */
  function Transfer(l: Link, t: Tpdu): (r: (Link, Result<Reply, SendError>))
    requires l.Valid()
    ensures r.0.Valid() && r.0.env == l.env
    ensures r.0.sent == l.sent || r.0.sent == l.sent + [t]
    ensures r.0.taken == l.taken + (if r.1.Ok? then 1 else 0)
    ensures r.1.Ok? ==> r.0.sent == l.sent + [t] && r.1.value == r.0.ReplyAt(l.taken)
  {
    var l' := l.(clock := l.clock + 1);
    var delivered := l'.(sent := l.sent + [t]);
    match l.env.io(l.clock)
    case EncodeFails => (l', Err(CannotEncode))
    case SendFails(e) => (l', Err(IoFailed(e)))
    case DoneAfterSend(c) => if TooLong(t) then (l', Err(IoFailed(NetBroken))) else (delivered, Err(IoFailed(Cancelled(c))))
    case ReceiveFails(e) => if TooLong(t) then (l', Err(IoFailed(NetBroken))) else (delivered, Err(IoFailed(e)))
    case Delivered =>
      if TooLong(t) then (l', Err(IoFailed(NetBroken)))
      else (delivered.(taken := l.taken + 1), Ok(delivered.ReplyAt(l.taken)))
  }

  /** Replies already produced do not change when more is sent. */
  lemma RepliesStay(l: Link, l': Link, k: nat)
    requires k < |l.sent| <= |l'.sent| && l'.sent[..|l.sent|] == l.sent && l'.env == l.env
    ensures l'.ReplyAt(k) == l.ReplyAt(k)
  {
    assert l'.sent[..k + 1] == l.sent[..k + 1];
  }
}
