/** Whole runs of requests on one connection: every accepted reply answers its own request. */
module Correlation {
  import opened Bytes
  import opened S7
  import opened Link
  import opened Exchange
  import H = Handshake

  /** A request as any operation issues it: built around the reference it is given. */
  datatype Request = Request(pduSize: nat, build: u16 -> seq<byte>)

  /** Frame number `own` asked; the reply accepted is the device's answer to frame number `answered`. */
  datatype Outcome = Accepted(own: nat, answered: nat, param: seq<byte>, data: seq<byte>) | Failed(error: Error)

  ghost predicate WellFormed(r: Request) {
    forall ref: u16 :: Carries(DT(r.build(ref)), ref)
  }

  function Step(l: Link, issued: nat, r: Request): (s: (Link, Outcome))
    requires l.Valid()
    ensures s.0.Valid() && s.0.env == l.env && l.sent <= s.0.sent && l.taken <= s.0.taken && s.0.Lag() >= l.Lag()
  {
    var ref := RefOf(issued + 1);
    var (l', got) := SendReceive(l, r.pduSize, r.build(ref), ref);
    (l', match got
         case Err(e) => Failed(e)
         case Ok((param, data)) => Accepted(|l.sent|, l.taken, param, data))
  }

  function Run(l: Link, issued: nat, rs: seq<Request>): (r: (Link, seq<Outcome>))
    requires l.Valid()
    ensures r.0.Valid() && |r.1| == |rs|
    ensures r.0.env == l.env && l.sent <= r.0.sent && l.taken <= r.0.taken && r.0.Lag() >= l.Lag()
    decreases |rs|
  {
    if rs == [] then (l, []) else
    var (l1, o) := Step(l, issued, rs[0]);
    var (l2, os) := Run(l1, issued + 1, rs[1..]);
    (l2, [o] + os)
  }

  /** None of the references numbered first + 1 .. last is 0. */
  ghost predicate NoZeroRef(first: nat, last: nat) {
    forall n :: first < n <= last ==> RefOf(n) != 0
  }

  /** 65536 references in a row always include 0. */
  lemma NoZeroIsShort(first: nat, last: nat)
    requires NoZeroRef(first, last) && first <= last
    ensures last - first < 0x1_0000
  {
    var n := 0x1_0000 * (first / 0x1_0000 + 1);
    assert RefOf(n) == 0 && first < n <= first + 0x1_0000;
  }

  ghost predicate AllFailed(os: seq<Outcome>) {
    forall k :: 0 <= k < |os| ==> os[k].Failed?
  }

  /** An accepted outcome of the request numbered `issued` is the device's answer to that same request. */
  ghost predicate OwnAnswer(l: Link, o: Outcome, issued: nat) {
    o.Accepted? ==>
      && o.answered == o.own < |l.sent|
      && Interpret(l.ReplyAt(o.own), RefOf(issued)) == Ok((o.param, o.data))
  }

  ghost predicate AllOwnAnswers(l: Link, os: seq<Outcome>, issued: nat) {
    forall k :: 0 <= k < |os| ==> OwnAnswer(l, os[k], issued + 1 + k)
  }

  lemma StepStamps(l: Link, stamps: seq<nat>, issued: nat, r: Request) returns (stamps': seq<nat>)
    requires Stamped(l, stamps, issued) && WellFormed(r)
    ensures Stamped(Step(l, issued, r).0, stamps', issued + 1)
    ensures stamps' != [] ==> stamps'[0] >= if stamps != [] then stamps[0] else issued + 1
  {
    var ref := RefOf(issued + 1);
    StampsKept(l, r.pduSize, r.build(ref), stamps, issued);
    stamps' := StampsAfter(l, Step(l, issued, r).0, stamps, issued + 1);
  }

  lemma {:induction false} RunStamps(l: Link, stamps: seq<nat>, issued: nat, rs: seq<Request>) returns (stamps': seq<nat>)
    requires Stamped(l, stamps, issued)
    requires forall r :: r in rs ==> WellFormed(r)
    ensures Stamped(Run(l, issued, rs).0, stamps', issued + |rs|)
    ensures stamps' != [] ==> stamps'[0] >= if stamps != [] then stamps[0] else issued + 1
    decreases |rs|
  {
    hide Step;
    if rs == [] {
      stamps' := stamps;
    } else {
      var stamps1 := StepStamps(l, stamps, issued, rs[0]);
      stamps' := RunStamps(Step(l, issued, rs[0]).0, stamps1, issued + 1, rs[1..]);
    }
  }

  lemma LaggedStepFails(l: Link, stamps: seq<nat>, issued: nat, r: Request)
    requires Stamped(l, stamps, issued) && Echoes(l.env.serve) && l.Lag() > 0 && WellFormed(r)
    requires Window(stamps, issued + 1) && RefOf(issued + 1) != 0
    ensures Step(l, issued, r).1.Failed?
  {
    LagBlocks(l, r.pduSize, r.build(RefOf(issued + 1)), stamps, issued);
  }

  /** Once a reply is unread, every later exchange fails and the lag never shrinks (until the connection is replaced). */
  lemma {:induction false} LaggedRunFails(l: Link, stamps: seq<nat>, issued: nat, rs: seq<Request>)
    requires Stamped(l, stamps, issued) && Echoes(l.env.serve) && l.Lag() > 0
    requires forall r :: r in rs ==> WellFormed(r)
    requires Window(stamps, issued + |rs|) && NoZeroRef(issued, issued + |rs|)
    ensures AllFailed(Run(l, issued, rs).1) && Run(l, issued, rs).0.Lag() >= l.Lag()
    decreases |rs|
  {
    hide Step;
    if rs != [] {
      var r := rs[0];
      LaggedStepFails(l, stamps, issued, r);
      var stamps1 := StepStamps(l, stamps, issued, r);
      LaggedRunFails(Step(l, issued, r).0, stamps1, issued + 1, rs[1..]);
    }
  }

  lemma FirstAnswer(l: Link, issued: nat, rs: seq<Request>)
    requires l.Valid() && l.Lag() == 0 && rs != []
    ensures OwnAnswer(Run(l, issued, rs).0, Run(l, issued, rs).1[0], issued + 1)
  {
    var (l1, o) := Step(l, issued, rs[0]);
    if o.Accepted? {
      RepliesStay(l1, Run(l, issued, rs).0, l.taken);
    }
  }

  /** Every reply accepted in a run is the device's answer to that same request. */
  lemma {:induction false} AcceptedAnswersItself(l: Link, stamps: seq<nat>, issued: nat, rs: seq<Request>)
    requires Stamped(l, stamps, issued) && Echoes(l.env.serve)
    requires forall r :: r in rs ==> WellFormed(r)
    requires Window(stamps, issued + |rs|) && NoZeroRef(issued, issued + |rs|)
    ensures AllOwnAnswers(Run(l, issued, rs).0, Run(l, issued, rs).1, issued)
    decreases |rs|
  {
    hide Step;
    if l.Lag() > 0 {
      LaggedRunFails(l, stamps, issued, rs);
    } else if rs != [] {
      FirstAnswer(l, issued, rs);
      var stamps1 := StepStamps(l, stamps, issued, rs[0]);
      NoZeroIsShort(issued, issued + |rs|);
      var (l1, o) := Step(l, issued, rs[0]);
      hide Stamped, Echoes, Window, OwnAnswer;
      AcceptedAnswersItself(l1, stamps1, issued + 1, rs[1..]);
      OneMoreAnswer(Run(l, issued, rs).0, o, Run(l1, issued + 1, rs[1..]).1, issued);
    }
  }

  lemma OneMoreAnswer(l: Link, o: Outcome, os: seq<Outcome>, issued: nat)
    requires OwnAnswer(l, o, issued + 1) && AllOwnAnswers(l, os, issued + 1)
    ensures AllOwnAnswers(l, [o] + os, issued)
  {
    hide OwnAnswer;
    forall k | 0 <= k < |[o] + os| ensures OwnAnswer(l, ([o] + os)[k], issued + 1 + k) {
      if k > 0 {
        assert OwnAnswer(l, os[k - 1], issued + 1 + 1 + (k - 1));
      }
    }
  }

  ghost predicate FailedFrom(os: seq<Outcome>, first: nat) {
    forall k :: first <= k < |os| ==> os[k].Failed?
  }

  lemma FailedFromLater(o: Outcome, os: seq<Outcome>, first: nat)
    requires FailedFrom(os, first)
    ensures FailedFrom([o] + os, first + 1)
  {
  }

  /** From the first point of a run at which some reply is unread, everything fails. */
  lemma {:induction false} UnreadReplyPoisonsTheRest(
      l: Link, stamps: seq<nat>, issued: nat, before: seq<Request>, after: seq<Request>)
    requires Stamped(l, stamps, issued) && Echoes(l.env.serve)
    requires (forall r :: r in before ==> WellFormed(r)) && (forall r :: r in after ==> WellFormed(r))
    requires Window(stamps, issued + |before| + |after|) && NoZeroRef(issued, issued + |before| + |after|)
    requires Run(l, issued, before).0.Lag() > 0
    ensures FailedFrom(Run(l, issued, before + after).1, |before|)
    ensures Run(l, issued, before + after).0.Lag() >= Run(l, issued, before).0.Lag()
    decreases |before|
  {
    hide Step;
    if before == [] {
      assert before + after == after;
      LaggedRunFails(l, stamps, issued, after);
    } else {
      var rs := before + after;
      assert rs[0] == before[0] && rs[1..] == before[1..] + after;
      NoZeroIsShort(issued, issued + |rs|);
      var stamps1 := StepStamps(l, stamps, issued, before[0]);
      var (l1, o) := Step(l, issued, before[0]);
      UnreadReplyPoisonsTheRest(l1, stamps1, issued + 1, before[1..], after);
      FailedFromLater(o, Run(l1, issued + 1, rs[1..]).1, |before| - 1);
    }
  }

  // ---------------------------------------------------------------- one unread reply is enough to break correlation

  /** A device that welcomes the connection and then answers every request with an empty acknowledgement. */
  function EchoReply(h: seq<Tpdu>): Reply {
    if |h| == 1 then Frame(CC)
    else if |h| == 2 then H.SetupAnswer(1, H.Setup(1, 1, 480))
    else if h != [] && h[|h| - 1].DT? && |h[|h| - 1].userData| >= 6
    then Frame(DT(AckBytes(GetU16(h[|h| - 1].userData, 4), 0, 0, [], [])))
    else Undecodable
  }

  /** After the handshake the first reply goes unread, the next 65535 sends fail, then the link works again. */
  const LOSSY_ENV := Env((n: nat) => if n == 2 then ReceiveFails(NetTimeout)
                                     else if 2 < n < 0x1_0002 then SendFails(NetTimeout) else Delivered,
                         EchoReply)

  /** A request that fits the negotiated PDU under every reference. */
  ghost predicate Fits(r: Request) {
    r.pduSize == 480 && forall ref: u16 :: |r.build(ref)| <= 480
  }

  function Repeat(r: Request, n: nat): (rs: seq<Request>)
    ensures |rs| == n
  {
    if n == 0 then [] else [r] + Repeat(r, n - 1)
  }

  lemma {:induction false} FailedSendsLeaveNothing(l: Link, issued: nat, r: Request, n: nat)
    requires l.Valid() && Fits(r)
    requires forall c :: l.clock <= c < l.clock + n ==> l.env.io(c).SendFails?
    ensures Run(l, issued, Repeat(r, n)).0 == l.(clock := l.clock + n)
    decreases n
  {
    if n > 0 {
      assert l.env.io(l.clock).SendFails?;
      FailedSendsLeaveNothing(Step(l, issued, r).0, issued + 1, r, n - 1);
      assert Repeat(r, n)[1..] == Repeat(r, n - 1);
    }
  }

  lemma {:induction false} RunConcat(l: Link, issued: nat, a: seq<Request>, b: seq<Request>)
    requires l.Valid()
    ensures Run(l, issued, a + b).0 == Run(Run(l, issued, a).0, issued + |a|, b).0
    ensures Run(l, issued, a + b).1 == Run(l, issued, a).1 + Run(Run(l, issued, a).0, issued + |a|, b).1
    decreases |a|
  {
    hide Step;
    if a == [] {
      assert a + b == b;
    } else {
      assert (a + b)[0] == a[0] && (a + b)[1..] == a[1..] + b;
      RunConcat(Step(l, issued, a[0]).0, issued + 1, a[1..], b);
      assert issued + 1 + |a[1..]| == issued + |a|;
    }
  }

  /**
   "Fewer than 65536 unread replies" is not the right bound: in a session just opened, with a single unread
   reply and 65535 failed sends, the reply to frame 2 is accepted for frame 3. One of the failed requests
   carried reference 0, so no bound on unread replies alone can stand in for "no reference is 0".
   */
  lemma OneUnreadReplyCanBeTakenForAnother(o: H.Options, rack: int, slot: int, r: Request, issued: nat, n: nat) returns (session: H.Session)
    requires H.TSAPs(o, rack, slot).Ok? && n == 0xFFFF && WellFormed(r) && Fits(r) && RefOf(issued + 1) != 0
    ensures H.Attempt(o, H.Accepted(LOSSY_ENV), NEVER, 0, rack, slot).1 == Ok(session) && session.setup.pduSize == r.pduSize
    ensures var os := Run(session.link, issued, [r] + Repeat(r, n) + [r]).1;
            os[n + 1].Accepted? && os[n + 1].own == 3 && os[n + 1].answered == 2
  {
    session := H.WelcomeOpens(o, LOSSY_ENV, rack, slot, H.Setup(1, 1, 480));
    hide H.TSAPs, H.SetupRequest, H.Attempt;
    LostReplyIsTaken(session.link.sent, r, issued, n);
  }

  lemma LostReplyIsTaken(hello: seq<Tpdu>, r: Request, issued: nat, n: nat)
    requires |hello| == 2 && n == 0xFFFF && WellFormed(r) && Fits(r) && RefOf(issued + 1) != 0
    ensures var os := Run(Link(LOSSY_ENV, 2, hello, 2), issued, [r] + Repeat(r, n) + [r]).1;
            os[n + 1].Accepted? && os[n + 1].own == 3 && os[n + 1].answered == 2
  {
    hide Step, Repeat;
    var l0 := Link(LOSSY_ENV, 2, hello, 2);
    var first := [r] + Repeat(r, n);
    RunConcat(l0, issued, first, [r]);
    RunConcat(l0, issued, [r], Repeat(r, n));
    RunOne(l0, issued, r);
    var l1 := Step(l0, issued, r).0;
    FirstReplyUnread(hello, r, issued);
    FailedSendsLeaveNothing(l1, issued + 1, r, n);
    var l2 := l1.(clock := 0x1_0002);
    assert Run(l0, issued, first).0 == l2;
    RunOne(l2, issued + n + 1, r);
    LastStepTakesStale(hello, r, issued, l2);
  }

  lemma RunOne(l: Link, issued: nat, r: Request)
    requires l.Valid()
    ensures Run(l, issued, [r]) == (Step(l, issued, r).0, [Step(l, issued, r).1])
  {
    hide Step;
    var none: seq<Request>, o := [], Step(l, issued, r).1;
    assert [r][1..] == none && [o] + [] == [o];
  }

  lemma FirstReplyUnread(hello: seq<Tpdu>, r: Request, issued: nat)
    requires |hello| == 2 && Fits(r)
    ensures Step(Link(LOSSY_ENV, 2, hello, 2), issued, r).0 == Link(LOSSY_ENV, 3, hello + [DT(r.build(RefOf(issued + 1)))], 2)
  {
  }

  lemma LastStepTakesStale(hello: seq<Tpdu>, r: Request, issued: nat, l: Link)
    requires |hello| == 2 && WellFormed(r) && Fits(r)
    requires l == Link(LOSSY_ENV, 0x1_0002, hello + [DT(r.build(RefOf(issued + 1)))], 2)
    ensures var o := Step(l, issued + 0x1_0000, r).1; o.Accepted? && o.own == 3 && o.answered == 2
  {
    var ref := RefOf(issued + 1);
    assert RefOf(issued + 0x1_0000 + 1) == ref;
    var frame := DT(r.build(ref));
    assert Carries(frame, ref);
    assert (l.sent + [frame])[..3] == hello + [frame];
    AckRoundTrip(ref, 0, 0, [], []);
    assert Interpret(EchoReply(hello + [frame]), ref).Ok?;
  }
}
