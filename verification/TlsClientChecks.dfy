/**
 What an arbitrary peer can make of a client: when exactly a round fails or is put off, and that a run that has not
 failed has taken in nothing but the messages of the protocol, in their order, each through a check that passed.
 */
module TlsClientChecks {
  import opened Wrappers
  import opened TlsHandshake
  import opened TlsClient
  import opened TlsScript

  // ----- What each state looks at -----

  /** The states that look at a message, given what has been settled. */
  predicate Reads(c: Client) {
    match c.state
    case ReadServerHello => true
    case ReadServerCertificate => c.facts.hello.CertAuth()
    case ReadCertificateStatus => c.facts.hello.ocsp
    case ReadServerKeyExchange => true
    case ReadCertificateRequest => c.facts.hello.CertAuth()
    case ReadServerHelloDone => true
    case ReadSessionTicket => c.facts.ticketExpected
    case ReadServerFinished => true
    case _ => false
  }

  /** The message that is due there. */
  predicate Due(c: Client, item: Item) {
    match c.state
    case ReadServerHello => item.ServerHello?
    case ReadServerCertificate => item.Certificate? && item.present
    case ReadCertificateStatus => item.CertificateStatus?
    case ReadServerKeyExchange => item.ServerKeyExchange? && !c.facts.hello.kx.Rsa?
    case ReadCertificateRequest => item.CertificateRequest?
    case ReadServerHelloDone => item.ServerHelloDone?
    case ReadSessionTicket => item.NewSessionTicket?
    case ReadServerFinished => item.Finished?
    case _ => false
  }

  /** Where the message that is due may be left out, a later one may be there instead. */
  predicate LeftOut(c: Client, item: Item) {
    match c.state
    case ReadCertificateStatus => !item.CertificateStatus?
    case ReadServerKeyExchange => !item.ServerKeyExchange? && !c.facts.hello.kx.Ecdhe?
    case ReadCertificateRequest => item.ServerHelloDone?
    case _ => false
  }

  /** The states that check or compute nothing, given what has been settled and what is there. */
  predicate PassesThrough(c: Client) {
    || (match c.state
        case EnterEarlyData => true
        case ReadServerCertificate => !c.facts.hello.CertAuth()
        case ReadCertificateStatus => !c.facts.hello.ocsp
        case VerifyServerCertificate => !c.facts.hello.CertAuth()
        case ReadCertificateRequest => !c.facts.hello.CertAuth()
        case SendClientCertificate => !c.facts.certRequest
        case SendClientCertificateVerify => !(c.facts.certRequest && c.cfg.hasCert)
        case FinishFlight => c.facts.resumed
        case ReadSessionTicket => !c.facts.ticketExpected
        case FinishClientHandshake => true
        case _ => false)
    || (Reads(c) && c.port.buffer.Some? && LeftOut(c, c.port.buffer.value))
  }

  /** The states with a callback or a private key operation, which may take time. */
  predicate Asks(c: Client) {
    match c.state
    case VerifyServerCertificate => c.facts.hello.CertAuth()
    case SendClientCertificate => c.facts.certRequest
    case SendClientCertificateVerify => c.facts.certRequest && c.cfg.hasCert
    case SendClientFinished => c.facts.hello.channelId
    case _ => false
  }

  predicate Lacks(c: Client) { Reads(c) && c.port.buffer.None? }

  /** A check fails, a message is not the one that is due, or one is left over where the key changes. */
  predicate MustFail(c: Client, v: Verdict) {
    && !Lacks(c)
    && (|| (v.Reject? && !PassesThrough(c))
        || (Reads(c) && !Due(c, c.port.buffer.value) && !LeftOut(c, c.port.buffer.value))
        || (c.state.ProcessCcs? && c.port.buffer.Some?))
  }

  /** The round is put off; nothing is lost by asking again. */
  predicate MustWait(c: Client, v: Verdict) { v.Retry? && Asks(c) }

  /** The message that is there is the one that is due. */
  predicate UsesUp(c: Client) { Reads(c) && c.port.buffer.Some? && Due(c, c.port.buffer.value) }

  /** What a round does with the message, by what the state looks at. */
  predicate Answers(c: Client, v: Verdict, t: Client) {
    && (t.port.wait.Failed? <==> MustFail(c, v))
    && (Lacks(c) ==> t == c.Blocked(ReadMessage))
    && (!Lacks(c) ==> !t.port.wait.ReadMessage?)
    && (t.port.wait.Pending? <==> !Lacks(c) && MustWait(c, v))
    && (t.port.wait.Pending? ==> t == c.Blocked(Pending))
    && (!t.port.wait.Failed? && !t.port.wait.Pending? && !Lacks(c) ==>
          t.port.buffer == if UsesUp(c) then None else c.port.buffer)
  }

  lemma FirstHalfAnswers(c: Client, v: Verdict)
    requires c.port.wait.Ready? && InFirstHalf(c)
    ensures Answers(c, v, Step(c, v))
  {
  }

  lemma SecondHalfAnswers(c: Client, v: Verdict)
    requires c.port.wait.Ready? && !c.state.Done? && !InFirstHalf(c)
    ensures Answers(c, v, Step(c, v))
  {
  }

  /**
   When exactly a round fails, waits for a message, or is put off: in a state that looks at something, it fails if the
   check is rejected or the message is neither the one due nor one that may come instead; it is put off if a callback
   asks for time. Otherwise it goes on, and is done with the message if that was the one due.
   */
  lemma RoundAnswers(c: Client, v: Verdict)
    requires c.port.wait.Ready? && !c.state.Done?
    ensures Answers(c, v, Step(c, v))
  {
    hide Step, Answers;
    if InFirstHalf(c) {
      FirstHalfAnswers(c, v);
    } else {
      SecondHalfAnswers(c, v);
    }
  }

  /**
   The client lets the application write early exactly if it may, in a full handshake, and once it has sent its Finished
   and is about to read.
   */
  lemma ReturnsEarlyExactly(c: Client, v: Verdict)
    requires LogMatches(c) && c.port.wait.Ready? && !c.state.Done?
    ensures Step(c, v).port.wait.EarlyReturn? <==>
      c.state.FinishFlight? && c.cfg.falseStart && !c.facts.resumed && !v.Reject?
    ensures Step(c, v).port.wait.EarlyReturn? ==>
      c.port.log == Wrote(Nothing) && Step(c, v).port == c.port.On(EarlyReturn) && Step(c, v).state.ReadSessionTicket?
  {
  }

  /** A verification is noted only in a round that has a Finished and does not reject it. */
  lemma VerifiesOnlyFinished(c: Client, m: Move)
    requires Enabled(c, m) && After(c, m).port.log == And(c.port.log, VerifyFinished)
    ensures m.Run? && !m.v.Reject? && c.state.ReadServerFinished? && c.port.buffer == Some(Finished)
  {
    if m.Run? {
      VerifiesInRound(c, m.v);
    }
  }

  lemma VerifiesInRound(c: Client, v: Verdict)
    requires c.port.wait.Ready? && !c.state.Done? && Step(c, v).port.log == And(c.port.log, VerifyFinished)
    ensures !v.Reject? && c.state.ReadServerFinished? && c.port.buffer == Some(Finished)
  {
  }

  /** A failed client stays failed: there is nothing more it can do. */
  lemma FailedIsFinal(c: Client, moves: seq<Move>)
    requires c.port.wait.Failed? && RunEnabled(c, moves)
    ensures moves == []
  {
  }

  /** No round of the run was to fail. */
  predicate AllPass(c: Client, moves: seq<Move>)
    requires RunEnabled(c, moves)
    decreases |moves|
  {
    moves == [] || ((moves[0].Run? ==> !MustFail(c, moves[0].v)) && AllPass(After(c, moves[0]), moves[1..]))
  }

  /** A run that has not failed had no round that was to fail. */
  lemma {:induction false} UnfailedPasses(c: Client, moves: seq<Move>)
    requires RunEnabled(c, moves) && !RunOf(c, moves).port.wait.Failed?
    ensures AllPass(c, moves)
    decreases |moves|
  {
    hide Step, MustFail, Answers;
    if moves != [] {
      UnfailedPasses(After(c, moves[0]), moves[1..]);
      if moves[0].Run? && MustFail(c, moves[0].v) {
        RejectedEnds(c, moves[0].v);
        FailedIsFinal(After(c, moves[0]), moves[1..]);
      }
    }
  }

  lemma RejectedEnds(c: Client, v: Verdict)
    requires c.port.wait.Ready? && !c.state.Done? && MustFail(c, v)
    ensures Step(c, v).port.wait.Failed?
  {
    hide Step, MustFail;
    RoundAnswers(c, v);
  }

  // ----- What a run takes in -----

  /** Which of the messages that a server may leave out have come, and whether its ticket is empty. */
  datatype Extras = Extras(status: bool, keyExchange: bool, emptyTicket: bool)

  const NO_EXTRAS := Extras(false, false, false)

  /** How many steps of the server's part of the protocol are behind the client. */
  function Stage(c: Client): nat {
    match c.state
    case StartConnect => 0
    case EnterEarlyData => 0
    case ReadServerHello => 0
    case ReadServerCertificate => 1
    case ReadCertificateStatus => 2
    case VerifyServerCertificate => 3
    case ReadServerKeyExchange => 3
    case ReadCertificateRequest => 4
    case ReadServerHelloDone => 5
    case SendClientFinished => if c.facts.resumed then 9 else 6
    case FinishFlight => if c.facts.resumed then 9 else 6
    case ProcessCcs => if c.port.wait.ReadCcs? then 7 else 8
    case ReadServerFinished => 8
    case FinishClientHandshake => 9
    case Done => 9
    case _ => 6
  }

  /** What the protocol has the server send at each step. */
  function FromServer(f: Facts, e: Extras, k: nat): seq<Item> {
    if k == 0 then [ServerHello(f.hello)]
    else if k == 1 then OneIf(!f.resumed && f.hello.CertAuth(), Certificate(true))
    else if k == 2 then OneIf(e.status, CertificateStatus)
    else if k == 3 then OneIf(e.keyExchange, ServerKeyExchange)
    else if k == 4 then OneIf(f.certRequest, CertificateRequest)
    else if k == 5 then OneIf(!f.resumed, ServerHelloDone)
    else if k == 6 then OneIf(f.hello.ticket, NewSessionTicket(e.emptyTicket))
    else if k == 7 then [Ccs]
    else [Finished]
  }

  /** All that the protocol has the server send before step `k`. */
  function ServerUpTo(f: Facts, e: Extras, k: nat): seq<Item> {
    if k == 0 then [] else ServerUpTo(f, e, k - 1) + FromServer(f, e, k - 1)
  }

  /**
   What the client has settled: whether the session is resumed, by its offer and the ServerHello, and which messages may
   have come.
   */
  predicate Settled(c: Client, e: Extras) {
    var f, k := c.facts, Stage(c);
    && f.resumed == (k >= 1 && c.cfg.session && f.hello.resumed)
    && (e.status ==> !f.resumed && f.hello.ocsp && k >= 3)
    && (e.keyExchange ==> !f.resumed && !f.hello.kx.Rsa? && k >= 4)
    && (k >= 4 && !f.resumed && f.hello.kx.Ecdhe? ==> e.keyExchange)
    && (f.certRequest ==> !f.resumed && f.hello.CertAuth() && k >= 5)
    && f.ticketExpected == (k >= 1 && f.hello.ticket && !(k >= 7 && e.emptyTicket))
    && (e.emptyTicket ==> f.hello.ticket && k >= 7)
  }

  /** The states in which a message may be in the buffer: those that read, and those that a message may pass by. */
  predicate MayHold(c: Client) {
    Reads(c) || c.state.VerifyServerCertificate? || c.state.ReadCertificateRequest?
  }

  /** With `got` taken in so far: it is what the protocol has up to here, and the message in the buffer. */
  predicate HasGot(c: Client, e: Extras, got: seq<Item>) {
    c.port.wait.Failed? ||
    (&& Settled(c, e) && (FullOnly(c.state) ==> !c.facts.resumed)
     && got == ServerUpTo(c.facts, e, Stage(c)) + Buffered(c.port.buffer)
     && (c.port.buffer.Some? ==> MayHold(c) && !c.port.wait.ReadMessage?)
     && (c.port.wait.ReadMessage? ==> Reads(c))
     && (c.port.wait.ReadCcs? ==> c.state.ProcessCcs?))
  }

  lemma ServerStep(f: Facts, e: Extras, k: nat)
    ensures ServerUpTo(f, e, k + 1) == ServerUpTo(f, e, k) + FromServer(f, e, k)
    ensures FromServer(f, e, k) == [] ==> ServerUpTo(f, e, k + 1) == ServerUpTo(f, e, k)
  {
  }

  /** A step of the protocol is over once its message, if it has one, is used. */
  lemma StepIsOver(f: Facts, e: Extras, k: nat, b: Option<Item>, got: seq<Item>)
    requires got == ServerUpTo(f, e, k) + Buffered(b) && FromServer(f, e, k) == Buffered(b)
    ensures got == ServerUpTo(f, e, k + 1) + Buffered(None)
  {
    hide FromServer, ServerUpTo;
    ServerStep(f, e, k);
  }

  /** What has come so far does not depend on what is settled later. */
  lemma {:induction false} EarlierStays(f: Facts, e: Extras, g: Facts, d: Extras, k: nat)
    requires forall i: nat | i < k :: FromServer(f, e, i) == FromServer(g, d, i)
    ensures ServerUpTo(f, e, k) == ServerUpTo(g, d, k)
  {
    hide FromServer;
    if k > 0 {
      EarlierStays(f, e, g, d, k - 1);
    }
  }

  /** The client goes on past one step of the protocol, with the message of the step or, if it has none, without. */
  lemma GoesOn(c: Client, e: Extras, t: Client, d: Extras, got: seq<Item>)
    requires HasGot(c, e, got) && c.port.wait.Ready? && Settled(t, d) && (FullOnly(t.state) ==> !t.facts.resumed)
    requires Stage(t) == Stage(c) + 1 && !t.port.wait.ReadMessage? && (t.port.wait.ReadCcs? ==> t.state.ProcessCcs?)
    requires forall i: nat | i < Stage(c) :: FromServer(c.facts, e, i) == FromServer(t.facts, d, i)
    requires
      || (FromServer(t.facts, d, Stage(c)) == Buffered(c.port.buffer) && t.port.buffer.None?)
      || (FromServer(t.facts, d, Stage(c)) == [] && t.port.buffer == c.port.buffer && MayHold(t))
    ensures HasGot(t, d, got)
  {
    hide ServerUpTo, FromServer, Stage, Reads, Settled;
    EarlierStays(c.facts, e, t.facts, d, Stage(c));
    if FromServer(t.facts, d, Stage(c)) == Buffered(c.port.buffer) && t.port.buffer.None? {
      StepIsOver(t.facts, d, Stage(c), c.port.buffer, got);
    } else {
      ServerStep(t.facts, d, Stage(c));
    }
  }

  /** A state that stays where it is, or fails. */
  lemma StaysPut(c: Client, e: Extras, t: Client, got: seq<Item>)
    requires HasGot(c, e, got) && c.port.wait.Ready? && !c.state.ProcessCcs?
    requires t == c.Failing() || t == c.Blocked(Pending) || (Lacks(c) && t == c.Blocked(ReadMessage))
    ensures HasGot(t, e, got)
  {
    hide ServerUpTo, Settled;
    assert Stage(t) == Stage(c);
    SettledStays(c, t, e);
  }

  lemma SettledStays(c: Client, t: Client, e: Extras)
    requires Settled(c, e) && t.facts == c.facts && t.cfg == c.cfg && Stage(t) == Stage(c)
    ensures Settled(t, e)
  {
  }

  /** Where no message may be, none is. */
  lemma NothingBuffered(c: Client, e: Extras, got: seq<Item>)
    requires HasGot(c, e, got) && c.port.wait.Ready? && !MayHold(c)
    ensures c.port.buffer.None?
  {
    hide ServerUpTo;
  }

  // ----- The states -----

  lemma NothingYet(f: Facts, e: Extras)
    ensures ServerUpTo(f, e, 0) == []
  {
  }

  lemma ServerHelloHasGot(c: Client, e: Extras, v: Verdict, got: seq<Item>)
    requires HasGot(c, e, got) && c.port.wait.Ready? && Stage(c) == 0
    ensures HasGot(Step(c, v), e, got)
  {
    hide ServerUpTo;
    var t := Step(c, v);
    NothingYet(c.facts, e);
    NothingYet(t.facts, e);
    ServerStep(t.facts, e, 0);
    if t.facts.resumed {
      ResumedSkipsTo(t.facts, e);
    }
  }

  /** A resumed handshake goes on with the ticket. */
  lemma ResumedSkipsTo(f: Facts, e: Extras)
    requires f.resumed && !f.certRequest && !e.status && !e.keyExchange
    ensures ServerUpTo(f, e, 6) == [ServerHello(f.hello)]
  {
    hide ServerUpTo;
    NothingYet(f, e);
    ServerStep(f, e, 0);
    ServerStep(f, e, 1);
    ServerStep(f, e, 2);
    ServerStep(f, e, 3);
    ServerStep(f, e, 4);
    ServerStep(f, e, 5);
  }

  lemma FullIsNotResumed(c: Client, e: Extras, got: seq<Item>)
    requires HasGot(c, e, got) && c.port.wait.Ready?
    ensures Settled(c, e) && (FullOnly(c.state) ==> !c.facts.resumed)
    ensures c.port.buffer.Some? ==> MayHold(c)
  {
  }

  lemma CertificateHasGot(c: Client, e: Extras, v: Verdict, got: seq<Item>) returns (d: Extras)
    requires HasGot(c, e, got) && c.port.wait.Ready? && c.state.ReadServerCertificate?
    ensures HasGot(DoReadServerCertificate(c, v), d, got)
  {
    hide ServerUpTo, HasGot;
    var t := DoReadServerCertificate(c, v);
    d := e;
    FullIsNotResumed(c, e, got);
    if t.state == c.state {
      StaysPut(c, e, t, got);
    } else {
      GoesOn(c, e, t, d, got);
    }
  }

  lemma StatusHasGot(c: Client, e: Extras, v: Verdict, got: seq<Item>) returns (d: Extras)
    requires HasGot(c, e, got) && c.port.wait.Ready? && c.state.ReadCertificateStatus?
    ensures HasGot(DoReadCertificateStatus(c, v), d, got)
  {
    hide ServerUpTo, HasGot;
    var t := DoReadCertificateStatus(c, v);
    d := e;
    FullIsNotResumed(c, e, got);
    if t.state == c.state {
      StaysPut(c, e, t, got);
    } else {
      if Reads(c) && c.port.buffer.value.CertificateStatus? {
        d := e.(status := true);
      }
      GoesOn(c, e, t, d, got);
    }
  }

  lemma KeyExchangeHasGot(c: Client, e: Extras, v: Verdict, got: seq<Item>) returns (d: Extras)
    requires HasGot(c, e, got) && c.port.wait.Ready? && c.state.ReadServerKeyExchange?
    ensures HasGot(DoReadServerKeyExchange(c, v), d, got)
  {
    hide ServerUpTo, HasGot;
    var t := DoReadServerKeyExchange(c, v);
    d := e;
    FullIsNotResumed(c, e, got);
    if t.state == c.state {
      StaysPut(c, e, t, got);
    } else {
      if c.port.buffer.value.ServerKeyExchange? {
        d := e.(keyExchange := true);
      }
      GoesOn(c, e, t, d, got);
    }
  }

  lemma RequestHasGot(c: Client, e: Extras, v: Verdict, got: seq<Item>) returns (d: Extras)
    requires HasGot(c, e, got) && c.port.wait.Ready? && c.state.ReadCertificateRequest?
    ensures HasGot(DoReadCertificateRequest(c, v), d, got)
  {
    hide ServerUpTo, HasGot;
    var t := DoReadCertificateRequest(c, v);
    d := e;
    FullIsNotResumed(c, e, got);
    if t.state == c.state {
      StaysPut(c, e, t, got);
    } else {
      GoesOn(c, e, t, d, got);
    }
  }

  lemma HelloDoneHasGot(c: Client, e: Extras, v: Verdict, got: seq<Item>) returns (d: Extras)
    requires HasGot(c, e, got) && c.port.wait.Ready? && c.state.ReadServerHelloDone?
    ensures HasGot(DoReadServerHelloDone(c, v), d, got)
  {
    hide ServerUpTo, HasGot;
    var t := DoReadServerHelloDone(c, v);
    d := e;
    FullIsNotResumed(c, e, got);
    if t.state == c.state {
      StaysPut(c, e, t, got);
    } else {
      GoesOn(c, e, t, d, got);
    }
  }

  lemma TicketHasGot(c: Client, e: Extras, v: Verdict, got: seq<Item>) returns (d: Extras)
    requires HasGot(c, e, got) && c.port.wait.Ready? && c.state.ReadSessionTicket?
    ensures HasGot(DoReadSessionTicket(c, v), d, got)
  {
    hide ServerUpTo, HasGot;
    var t := DoReadSessionTicket(c, v);
    d := e;
    FullIsNotResumed(c, e, got);
    if t.state == c.state {
      StaysPut(c, e, t, got);
    } else {
      if Reads(c) {
        d := e.(emptyTicket := c.port.buffer.value.empty);
      }
      GoesOn(c, e, t, d, got);
    }
  }

  lemma FinishedHasGot(c: Client, e: Extras, v: Verdict, got: seq<Item>) returns (d: Extras)
    requires HasGot(c, e, got) && c.port.wait.Ready? && c.state.ReadServerFinished?
    ensures HasGot(DoReadServerFinished(c, v), d, got)
  {
    hide ServerUpTo, HasGot;
    var t := DoReadServerFinished(c, v);
    d := e;
    FullIsNotResumed(c, e, got);
    if t.state == c.state {
      StaysPut(c, e, t, got);
    } else {
      GoesOn(c, e, t, d, got);
    }
  }

  lemma SendingHasGot(c: Client, e: Extras, v: Verdict, got: seq<Item>)
    requires HasGot(c, e, got) && c.port.wait.Ready?
    requires c.state.VerifyServerCertificate? || c.state.SendClientCertificate? || c.state.SendClientKeyExchange? ||
      c.state.SendClientCertificateVerify? || c.state.SendClientFinished? || c.state.FinishFlight?
    ensures HasGot(Step(c, v), e, got)
  {
    hide ServerUpTo;
  }

  lemma EndHasGot(c: Client, e: Extras, v: Verdict, got: seq<Item>)
    requires HasGot(c, e, got) && c.port.wait.Ready? && (c.state.ProcessCcs? || c.state.FinishClientHandshake?)
    ensures HasGot(Step(c, v), e, got)
  {
    hide ServerUpTo;
  }

  lemma RoundHasGot(c: Client, e: Extras, v: Verdict, got: seq<Item>) returns (d: Extras)
    requires HasGot(c, e, got) && c.port.wait.Ready? && !c.state.Done?
    ensures HasGot(Step(c, v), d, got)
  {
    hide HasGot, DoStartConnect, DoEnterEarlyData, DoReadServerHello, DoReadServerCertificate, DoReadCertificateStatus,
      DoVerifyServerCertificate, DoReadServerKeyExchange, DoReadCertificateRequest, DoReadServerHelloDone,
      DoSendClientCertificate, DoSendClientKeyExchange, DoSendClientCertificateVerify, DoSendClientFinished,
      DoFinishFlight, DoReadSessionTicket, DoProcessCcs, DoReadServerFinished, DoFinishClientHandshake;
    d := e;
    match c.state
    case StartConnect => ServerHelloHasGot(c, e, v, got);
    case EnterEarlyData => ServerHelloHasGot(c, e, v, got);
    case ReadServerHello => ServerHelloHasGot(c, e, v, got);
    case ReadServerCertificate => d := CertificateHasGot(c, e, v, got);
    case ReadCertificateStatus => d := StatusHasGot(c, e, v, got);
    case ReadServerKeyExchange => d := KeyExchangeHasGot(c, e, v, got);
    case ReadCertificateRequest => d := RequestHasGot(c, e, v, got);
    case ReadServerHelloDone => d := HelloDoneHasGot(c, e, v, got);
    case ReadSessionTicket => d := TicketHasGot(c, e, v, got);
    case ReadServerFinished => d := FinishedHasGot(c, e, v, got);
    case ProcessCcs => EndHasGot(c, e, v, got);
    case FinishClientHandshake => EndHasGot(c, e, v, got);
    case _ => SendingHasGot(c, e, v, got);
  }

  lemma ArrivalHasGot(c: Client, e: Extras, item: Item, got: seq<Item>)
    requires HasGot(c, e, got) && Enabled(c, Arrives(item))
    ensures HasGot(After(c, Arrives(item)), e, got + [item])
  {
    hide ServerUpTo;
    ServerStep(c.facts, e, 7);
  }

  lemma WaitingHasGot(c: Client, e: Extras, m: Move, got: seq<Item>)
    requires HasGot(c, e, got) && Enabled(c, m) && (m.Flushed? || m.Called?)
    ensures HasGot(After(c, m), e, got)
  {
    hide ServerUpTo;
  }

  lemma MoveHasGot(c: Client, e: Extras, m: Move, got: seq<Item>) returns (d: Extras)
    requires HasGot(c, e, got) && Enabled(c, m)
    ensures HasGot(After(c, m), d, got + TakenBy(m))
  {
    hide Step, HasGot;
    assert got + [] == got;
    d := e;
    if m.Run? {
      d := RoundHasGot(c, e, m.v, got);
    } else if m.Arrives? {
      ArrivalHasGot(c, e, m.item, got);
    } else {
      WaitingHasGot(c, e, m, got);
    }
  }

  lemma {:induction false} RunHasGot(c: Client, e: Extras, moves: seq<Move>, got: seq<Item>) returns (d: Extras)
    requires HasGot(c, e, got) && RunEnabled(c, moves)
    ensures HasGot(RunOf(c, moves), d, got + Taken(moves))
    decreases |moves|
  {
    hide HasGot, Enabled, After, TakenBy;
    if moves == [] {
      assert got + [] == got;
      d := e;
    } else {
      d := MoveHasGot(c, e, moves[0], got);
      d := RunHasGot(After(c, moves[0]), d, moves[1..], got + TakenBy(moves[0]));
      Associates(got, TakenBy(moves[0]), Taken(moves[1..]));
    }
  }

  /**
   Whatever the peer sends and the callbacks answer: if a run of the client has not failed, no check was rejected and no
   message was other than the one due or one that may come instead; and if it is done, the peer has sent the messages of
   the protocol that the ServerHello calls for, each once and in order, and nothing else. `e` says which of those came
   that the server may leave out.
   */
  lemma DoneMeansAllReceived(cfg: Config, moves: seq<Move>) returns (e: Extras)
    requires RunEnabled(Start(cfg), moves) && !RunOf(Start(cfg), moves).port.wait.Failed?
    ensures AllPass(Start(cfg), moves)
    ensures var c, got := RunOf(Start(cfg), moves), Taken(moves);
      && c.cfg == cfg && Settled(c, e)
      && (c.state.Done? ==> got == ServerUpTo(c.facts, e, 9))
  {
    hide ServerUpTo, RunOf, RunEnabled, AllPass;
    UnfailedPasses(Start(cfg), moves);
    StartHasGot(cfg);
    e := RunHasGot(Start(cfg), NO_EXTRAS, moves, []);
    assert [] + Taken(moves) == Taken(moves);
    RunKeepsOptions(Start(cfg), moves);
    var c := RunOf(Start(cfg), moves);
    if c.state.Done? {
      var all := ServerUpTo(c.facts, e, 9);
      assert all + Buffered(None) == all;
    }
  }

  lemma StartHasGot(cfg: Config)
    ensures HasGot(Start(cfg), NO_EXTRAS, [])
  {
  }

  lemma {:induction false} RunKeepsOptions(c: Client, moves: seq<Move>)
    requires RunEnabled(c, moves)
    ensures RunOf(c, moves).cfg == c.cfg
    decreases |moves|
  {
    hide Step, InFirstHalf;
    if moves != [] {
      RunKeepsOptions(After(c, moves[0]), moves[1..]);
      if moves[0].Run? {
        if InFirstHalf(c) {
          FirstHalfIsOrderly(c, moves[0].v);
        } else {
          SecondHalfIsOrderly(c, moves[0].v);
        }
      }
    }
  }
}
