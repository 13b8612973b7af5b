/**
 What an arbitrary peer can make of a server: when exactly a round fails or is put off, and that a run that has not
 failed has taken in nothing but the messages of the protocol, in their order, each through a check that passed.
 */
module TlsServerChecks {
  import opened Wrappers
  import opened TlsHandshake
  import opened TlsServer
  import opened TlsScript

  // ----- What each state looks at -----

  /** The states that look at a message, given what has been settled. */
  predicate Reads(s: Server) {
    match s.state
    case ReadClientHello => true
    case SelectCertificate => true
    case SelectParameters => true
    case ReadClientCertificate => s.facts.certRequest
    case ReadClientKeyExchange => true
    case ReadClientCertificateVerify => s.facts.peerCert
    case ReadNextProto => s.cfg.npn
    case ReadChannelId => s.facts.channelId
    case ReadClientFinished => true
    case _ => false
  }

  /** The message that is due there; an empty Certificate is one only if the server does not insist on it. */
  predicate Due(s: Server, item: Item) {
    match s.state
    case ReadClientHello => item.ClientHello?
    case SelectCertificate => true
    case SelectParameters => item.ClientHello?
    case ReadClientCertificate => item.Certificate? && (item.present || !s.cfg.failIfNoCert)
    case ReadClientKeyExchange => item.ClientKeyExchange?
    case ReadClientCertificateVerify => item.CertificateVerify?
    case ReadNextProto => item.NextProto?
    case ReadChannelId => item.ChannelId?
    case ReadClientFinished => item.Finished?
    case _ => false
  }

  /** The states that check or compute nothing, given what has been settled. */
  predicate PassesThrough(s: Server) {
    match s.state
    case StartAccept => true
    case SendServerKeyExchange => !s.facts.keyExchangeParams
    case ReadClientCertificate => !s.facts.certRequest
    case VerifyClientCertificate => !s.facts.peerCert
    case ReadClientCertificateVerify => !s.facts.peerCert
    case ReadChangeCipherSpec => true
    case ReadNextProto => !s.cfg.npn
    case ReadChannelId => !s.facts.channelId
    case FinishServerHandshake => true
    case _ => false
  }

  /** The states with a callback or a private key operation, which may take time. */
  predicate Asks(s: Server) {
    match s.state
    case ReadClientHello => true
    case SelectCertificate => true
    case SelectParameters => true
    case SendServerKeyExchange => s.facts.keyExchangeParams && !s.cfg.pskAuth
    case VerifyClientCertificate => s.facts.peerCert
    case ReadClientKeyExchange => s.cfg.kx.Rsa?
    case _ => false
  }

  predicate Lacks(s: Server) { Reads(s) && s.port.buffer.None? }

  /** A check fails, a message is not the one that is due, or one is left over where the key changes. */
  predicate MustFail(s: Server, v: Verdict) {
    && !Lacks(s)
    && (|| (v.Reject? && !PassesThrough(s))
        || (Reads(s) && !Due(s, s.port.buffer.value))
        || (s.state.ProcessCcs? && s.port.buffer.Some?))
  }

  /** The round is put off; nothing is lost by asking again. */
  predicate MustWait(s: Server, v: Verdict) { v.Retry? && Asks(s) && !MustFail(s, v) }

  /** The messages that the round is done with. */
  predicate UsesUp(s: Server) {
    Reads(s) && !s.state.ReadClientHello? && !s.state.SelectCertificate?
  }

  /** What a round does with the message, by what the state looks at. */
  predicate Answers(s: Server, v: Verdict, t: Server) {
    && (t.port.wait.Failed? <==> MustFail(s, v))
    && (Lacks(s) ==> t == s.Blocked(ReadMessage))
    && (!Lacks(s) ==> !t.port.wait.ReadMessage?)
    && (t.port.wait.Pending? <==> !Lacks(s) && MustWait(s, v))
    && (t.port.wait.Pending? ==> t == s.Blocked(Pending))
    && (!t.port.wait.Failed? && !t.port.wait.Pending? && !Lacks(s) ==>
          t.port.buffer == if UsesUp(s) then None else s.port.buffer)
  }

  lemma FirstHalfAnswers(s: Server, v: Verdict)
    requires s.port.wait.Ready? && InFirstHalf(s)
    ensures Answers(s, v, Step(s, v))
  {
  }

  lemma MiddleAnswers(s: Server, v: Verdict)
    requires s.port.wait.Ready? && InMiddle(s)
    ensures Answers(s, v, Step(s, v))
  {
  }

  lemma LastPartAnswers(s: Server, v: Verdict)
    requires s.port.wait.Ready? && InLastPart(s)
    ensures Answers(s, v, Step(s, v))
  {
  }

  /**
   When exactly a round fails, waits for a message, or is put off: in a state that looks at something, it fails if the
   check is rejected or the message is not the one due; it is put off if a callback asks for time. Otherwise it goes
   on, and is done with the message if it was to be read.
   */
  lemma RoundAnswers(s: Server, v: Verdict)
    requires s.port.wait.Ready? && !s.state.Done?
    ensures Answers(s, v, Step(s, v))
  {
    hide Step, Answers;
    if InFirstHalf(s) {
      FirstHalfAnswers(s, v);
    } else if InMiddle(s) {
      MiddleAnswers(s, v);
    } else {
      LastPartAnswers(s, v);
    }
  }

  /** A verification is noted only in a round that has a Finished and does not reject it. */
  lemma VerifiesOnlyFinished(s: Server, m: Move)
    requires Enabled(s, m) && After(s, m).port.log == And(s.port.log, VerifyFinished)
    ensures m.Run? && !m.v.Reject? && s.state.ReadClientFinished? && s.port.buffer == Some(Finished)
  {
    if m.Run? {
      VerifiesInRound(s, m.v);
    }
  }

  lemma VerifiesInRound(s: Server, v: Verdict)
    requires s.port.wait.Ready? && !s.state.Done? && Step(s, v).port.log == And(s.port.log, VerifyFinished)
    ensures !v.Reject? && s.state.ReadClientFinished? && s.port.buffer == Some(Finished)
  {
  }

  /** A failed server stays failed: there is nothing more it can do. */
  lemma FailedIsFinal(s: Server, moves: seq<Move>)
    requires s.port.wait.Failed? && RunEnabled(s, moves)
    ensures moves == []
  {
  }

  // ----- What a run takes in -----

  /** No round of the run was to fail. */
  predicate AllPass(s: Server, moves: seq<Move>)
    requires RunEnabled(s, moves)
    decreases |moves|
  {
    moves == [] || ((moves[0].Run? ==> !MustFail(s, moves[0].v)) && AllPass(After(s, moves[0]), moves[1..]))
  }

  /** Whether the server has read the ClientHello. */
  predicate Chosen(state: State) {
    !state.StartAccept? && !state.ReadClientHello? && !state.SelectCertificate? && !state.SelectParameters?
  }

  /** How many steps of the client's part of the protocol are behind the server. */
  function Stage(s: Server): nat {
    match s.state
    case StartAccept => 0
    case ReadClientHello => 0
    case SelectCertificate => 0
    case SelectParameters => 0
    case VerifyClientCertificate => 2
    case ReadClientKeyExchange => 2
    case ReadClientCertificateVerify => 3
    case ReadChangeCipherSpec => 4
    case ProcessCcs => if s.port.wait.ReadCcs? then 4 else 5
    case ReadNextProto => 5
    case ReadChannelId => 6
    case ReadClientFinished => 7
    case SendServerFinished => if s.facts.resumed then 4 else 8
    case FinishServerHandshake => 8
    case Done => 8
    case _ => 1
  }

  /** What the protocol has the client send at each step; `session` is whether the ClientHello offers one. */
  function FromClient(cfg: Config, f: Facts, session: bool, k: nat): seq<Item> {
    if k == 0 then [ClientHello(session)]
    else if k == 1 then OneIf(f.certRequest, Certificate(f.peerCert))
    else if k == 2 then OneIf(!f.resumed, ClientKeyExchange)
    else if k == 3 then OneIf(f.peerCert, CertificateVerify)
    else if k == 4 then [Ccs]
    else if k == 5 then OneIf(cfg.npn, NextProto)
    else if k == 6 then OneIf(f.channelId, ChannelId)
    else [Finished]
  }

  /** All that the protocol has the client send before step `k`. */
  function ClientUpTo(cfg: Config, f: Facts, session: bool, k: nat): seq<Item> {
    if k == 0 then [] else ClientUpTo(cfg, f, session, k - 1) + FromClient(cfg, f, session, k - 1)
  }

  /** What the ClientHello at the front offers. */
  predicate Offers(got: seq<Item>) { got != [] && got[0].ClientHello? && got[0].session }

  /** What the server has settled, by its options and the ClientHello it got. */
  predicate Settled(s: Server, got: seq<Item>) {
    var f, cfg := s.facts, s.cfg;
    && (Chosen(s.state) ==>
          && f.resumed == (Offers(got) && cfg.resumable)
          && f.certRequest == (!f.resumed && cfg.verifyPeer && !cfg.pskAuth
                               && !(cfg.notWithChannelId && cfg.channelIdOffered)))
    && f.channelId == (cfg.channelIdOffered && (Chosen(s.state) && !s.state.SendServerHello? ==>
                         cfg.kx.Ecdhe? && (f.resumed ==> cfg.sessionHasHashes)))
    && (f.peerCert ==> f.certRequest && Stage(s) >= 2)
    && (Stage(s) >= 2 && f.certRequest && cfg.failIfNoCert ==> f.peerCert)
    && (!Chosen(s.state) ==> !f.resumed && !f.certRequest)
  }

  /** With `got` taken in so far: it is what the protocol has up to here, and the message in the buffer. */
  predicate HasGot(s: Server, got: seq<Item>) {
    s.port.wait.Failed? ||
    (&& Settled(s, got) && (FullOnly(s.state) ==> !s.facts.resumed)
     && got == ClientUpTo(s.cfg, s.facts, Offers(got), Stage(s)) + Buffered(s.port.buffer)
     && (s.port.buffer.Some? ==> Reads(s) && !s.port.wait.ReadMessage?)
     && (s.port.wait.ReadMessage? ==> Reads(s))
     && (s.port.wait.ReadCcs? ==> s.state.ProcessCcs?))
  }

  lemma ClientStep(cfg: Config, f: Facts, session: bool, k: nat)
    ensures ClientUpTo(cfg, f, session, k + 1) == ClientUpTo(cfg, f, session, k) + FromClient(cfg, f, session, k)
    ensures FromClient(cfg, f, session, k) == [] ==>
      ClientUpTo(cfg, f, session, k + 1) == ClientUpTo(cfg, f, session, k)
  {
  }

  /** A step of the protocol is over once its message, if it has one, is used. */
  lemma StepIsOver(cfg: Config, f: Facts, session: bool, k: nat, b: Option<Item>, got: seq<Item>)
    requires got == ClientUpTo(cfg, f, session, k) + Buffered(b) && FromClient(cfg, f, session, k) == Buffered(b)
    ensures got == ClientUpTo(cfg, f, session, k + 1) + Buffered(None)
  {
    hide FromClient, ClientUpTo;
    ClientStep(cfg, f, session, k);
  }

  /** The first step is the ClientHello, whatever else is settled later. */
  lemma FirstStep(cfg: Config, f: Facts, session: bool)
    ensures ClientUpTo(cfg, f, session, 1) == [ClientHello(session)]
  {
    assert ClientUpTo(cfg, f, session, 0) == [];
  }

  /** A resumed handshake goes on with the ChangeCipherSpec. */
  lemma ResumedSkipsTo(cfg: Config, f: Facts, session: bool)
    requires f.resumed && !f.certRequest && !f.peerCert
    ensures ClientUpTo(cfg, f, session, 4) == [ClientHello(session)]
  {
    hide ClientUpTo;
    FirstStep(cfg, f, session);
    ClientStep(cfg, f, session, 1);
    ClientStep(cfg, f, session, 2);
    ClientStep(cfg, f, session, 3);
  }

  lemma ChoosingHasGot(s: Server, v: Verdict, got: seq<Item>)
    requires HasGot(s, got) && s.port.wait.Ready? && !Chosen(s.state)
    ensures HasGot(Step(s, v), got)
  {
    hide FromClient;
    if got != [] {
      FirstStep(s.cfg, Step(s, v).facts, Offers(got));
    }
  }

  lemma SendingHasGot(s: Server, v: Verdict, got: seq<Item>)
    requires HasGot(s, got) && s.port.wait.Ready? && Chosen(s.state) && InFirstHalf(s) && !Reads(s)
    requires !s.state.ReadClientCertificate? && !s.state.VerifyClientCertificate?
    ensures HasGot(Step(s, v), got)
  {
    hide FromClient, ClientUpTo;
    var t := Step(s, v);
    FirstStep(s.cfg, s.facts, Offers(got));
    FirstStep(s.cfg, t.facts, Offers(got));
    if t.facts.resumed && !t.facts.certRequest && !t.facts.peerCert {
      ResumedSkipsTo(s.cfg, t.facts, Offers(got));
    }
  }

  lemma CertificateHasGot(s: Server, v: Verdict, got: seq<Item>)
    requires HasGot(s, got) && s.port.wait.Ready?
    requires s.state.ReadClientCertificate? || s.state.VerifyClientCertificate?
    ensures HasGot(Step(s, v), got)
  {
    hide ClientUpTo;
    var t := Step(s, v);
    FirstStep(s.cfg, s.facts, Offers(got));
    FirstStep(s.cfg, t.facts, Offers(got));
    ClientStep(s.cfg, t.facts, Offers(got), 1);
  }

  /** A state of the second half that goes on, past one step of the protocol. */
  lemma GoesOn(s: Server, t: Server, got: seq<Item>)
    requires HasGot(s, got) && s.port.wait.Ready? && Chosen(s.state) && !s.state.SendServerHello? && Stage(s) >= 2
    requires t == s.(state := t.state, port := t.port) && Chosen(t.state) && !t.state.SendServerHello?
    requires Stage(t) == Stage(s) + 1 && (FullOnly(t.state) ==> !s.facts.resumed)
    requires FromClient(s.cfg, s.facts, Offers(got), Stage(s)) == Buffered(s.port.buffer) && t.port.buffer.None?
    requires !t.port.wait.ReadMessage? && !t.port.wait.ReadCcs?
    ensures HasGot(t, got)
  {
    hide ClientUpTo, FromClient, Stage, Reads;
    StepIsOver(s.cfg, s.facts, Offers(got), Stage(s), s.port.buffer, got);
  }

  /** A state that stays where it is, or fails. */
  lemma StaysPut(s: Server, t: Server, got: seq<Item>)
    requires HasGot(s, got) && s.port.wait.Ready? && !s.state.ProcessCcs?
    requires t == s.Failing() || t == s.Blocked(Pending) || (Lacks(s) && t == s.Blocked(ReadMessage))
    ensures HasGot(t, got)
  {
    hide ClientUpTo;
  }

  lemma KeyExchangeHasGot(s: Server, v: Verdict, got: seq<Item>)
    requires HasGot(s, got) && s.port.wait.Ready? && s.state.ReadClientKeyExchange?
    ensures HasGot(DoReadClientKeyExchange(s, v), got)
  {
    hide ClientUpTo, HasGot;
    var t := DoReadClientKeyExchange(s, v);
    assert !s.facts.resumed by { FullIsNotResumed(s, got); }
    if t.state == s.state {
      StaysPut(s, t, got);
    } else {
      GoesOn(s, t, got);
    }
  }

  lemma FullIsNotResumed(s: Server, got: seq<Item>)
    requires HasGot(s, got) && s.port.wait.Ready? && FullOnly(s.state)
    ensures !s.facts.resumed
  {
  }

  /** Where nothing is to be read, nothing is in the buffer. */
  lemma NothingBuffered(s: Server, got: seq<Item>)
    requires HasGot(s, got) && s.port.wait.Ready? && !Reads(s)
    ensures s.port.buffer.None?
  {
    hide ClientUpTo;
  }

  lemma CertificateVerifyHasGot(s: Server, v: Verdict, got: seq<Item>)
    requires HasGot(s, got) && s.port.wait.Ready? && s.state.ReadClientCertificateVerify?
    ensures HasGot(DoReadClientCertificateVerify(s, v), got)
  {
    hide ClientUpTo, HasGot;
    var t := DoReadClientCertificateVerify(s, v);
    if t.state == s.state {
      StaysPut(s, t, got);
    } else {
      if !s.facts.peerCert {
        NothingBuffered(s, got);
      }
      GoesOn(s, t, got);
    }
  }

  lemma ChangeCipherSpecHasGot(s: Server, v: Verdict, got: seq<Item>)
    requires HasGot(s, got) && s.port.wait.Ready? && (s.state.ReadChangeCipherSpec? || s.state.ProcessCcs?)
    ensures HasGot(Step(s, v), got)
  {
    hide ClientUpTo;
  }

  lemma NextProtoHasGot(s: Server, v: Verdict, got: seq<Item>)
    requires HasGot(s, got) && s.port.wait.Ready? && s.state.ReadNextProto?
    ensures HasGot(DoReadNextProto(s, v), got)
  {
    hide ClientUpTo, HasGot;
    var t := DoReadNextProto(s, v);
    if t.state == s.state {
      StaysPut(s, t, got);
    } else {
      if !s.cfg.npn {
        NothingBuffered(s, got);
      }
      GoesOn(s, t, got);
    }
  }

  lemma ChannelIdHasGot(s: Server, v: Verdict, got: seq<Item>)
    requires HasGot(s, got) && s.port.wait.Ready? && s.state.ReadChannelId?
    ensures HasGot(DoReadChannelId(s, v), got)
  {
    hide ClientUpTo, HasGot;
    var t := DoReadChannelId(s, v);
    if t.state == s.state {
      StaysPut(s, t, got);
    } else {
      if !s.facts.channelId {
        NothingBuffered(s, got);
      }
      GoesOn(s, t, got);
    }
  }

  lemma FinishedHasGot(s: Server, v: Verdict, got: seq<Item>)
    requires HasGot(s, got) && s.port.wait.Ready? && s.state.ReadClientFinished?
    ensures HasGot(DoReadClientFinished(s, v), got)
  {
    hide ClientUpTo, HasGot;
    var t := DoReadClientFinished(s, v);
    if t.state == s.state {
      StaysPut(s, t, got);
    } else {
      GoesOn(s, t, got);
    }
  }

  lemma EndHasGot(s: Server, v: Verdict, got: seq<Item>)
    requires HasGot(s, got) && s.port.wait.Ready? && (s.state.SendServerFinished? || s.state.FinishServerHandshake?)
    ensures HasGot(Step(s, v), got)
  {
    hide ClientUpTo;
  }

  lemma SecondHalfHasGot(s: Server, v: Verdict, got: seq<Item>)
    requires HasGot(s, got) && s.port.wait.Ready? && !s.state.Done? && !InFirstHalf(s)
    ensures HasGot(Step(s, v), got)
  {
    hide HasGot, DoReadClientKeyExchange, DoReadClientCertificateVerify, DoReadNextProto, DoReadChannelId,
      DoReadClientFinished, DoReadChangeCipherSpec, DoProcessCcs, DoSendServerFinished, DoFinishServerHandshake;
    match s.state
    case ReadClientKeyExchange => KeyExchangeHasGot(s, v, got);
    case ReadClientCertificateVerify => CertificateVerifyHasGot(s, v, got);
    case ReadNextProto => NextProtoHasGot(s, v, got);
    case ReadChannelId => ChannelIdHasGot(s, v, got);
    case ReadClientFinished => FinishedHasGot(s, v, got);
    case ReadChangeCipherSpec => ChangeCipherSpecHasGot(s, v, got);
    case ProcessCcs => ChangeCipherSpecHasGot(s, v, got);
    case SendServerFinished => EndHasGot(s, v, got);
    case FinishServerHandshake => EndHasGot(s, v, got);
    case _ =>
  }

  lemma RoundHasGot(s: Server, v: Verdict, got: seq<Item>)
    requires HasGot(s, got) && s.port.wait.Ready? && !s.state.Done?
    ensures HasGot(Step(s, v), got)
  {
    hide Step, HasGot;
    if !Chosen(s.state) {
      ChoosingHasGot(s, v, got);
    } else if s.state.ReadClientCertificate? || s.state.VerifyClientCertificate? {
      CertificateHasGot(s, v, got);
    } else if InFirstHalf(s) {
      SendingHasGot(s, v, got);
    } else {
      SecondHalfHasGot(s, v, got);
    }
  }

  /** What the ClientHello offers is known once it is there, and does not matter before. */
  lemma OfferStays(cfg: Config, f: Facts, got: seq<Item>, item: Item, k: nat)
    requires got == [] ==> k == 0
    ensures ClientUpTo(cfg, f, Offers(got + [item]), k) == ClientUpTo(cfg, f, Offers(got), k)
  {
    if got != [] {
      assert (got + [item])[0] == got[0];
    }
  }

  lemma {:induction false} NotEmpty(cfg: Config, f: Facts, session: bool, k: nat)
    requires k >= 1
    ensures |ClientUpTo(cfg, f, session, k)| >= 1
  {
    if k > 1 {
      NotEmpty(cfg, f, session, k - 1);
    }
  }

  lemma ArrivalHasGot(s: Server, item: Item, got: seq<Item>)
    requires HasGot(s, got) && Enabled(s, Arrives(item))
    ensures HasGot(After(s, Arrives(item)), got + [item])
  {
    hide ClientUpTo;
    if Stage(s) >= 1 {
      NotEmpty(s.cfg, s.facts, Offers(got), Stage(s));
    }
    if got != [] || Stage(s) == 0 {
      OfferStays(s.cfg, s.facts, got, item, Stage(s));
    }
    ClientStep(s.cfg, s.facts, Offers(got + [item]), 4);
  }

  lemma MoveHasGot(s: Server, m: Move, got: seq<Item>)
    requires HasGot(s, got) && Enabled(s, m)
    ensures HasGot(After(s, m), got + TakenBy(m))
  {
    hide Step, HasGot;
    assert got + [] == got;
    if m.Run? {
      RoundHasGot(s, m.v, got);
    } else if m.Arrives? {
      ArrivalHasGot(s, m.item, got);
    } else {
      WaitingHasGot(s, m, got);
    }
  }

  lemma WaitingHasGot(s: Server, m: Move, got: seq<Item>)
    requires HasGot(s, got) && Enabled(s, m) && (m.Flushed? || m.Called?)
    ensures HasGot(After(s, m), got)
  {
    hide ClientUpTo;
  }

  lemma {:induction false} RunHasGot(s: Server, moves: seq<Move>, got: seq<Item>)
    requires HasGot(s, got) && RunEnabled(s, moves)
    ensures HasGot(RunOf(s, moves), got + Taken(moves))
    decreases |moves|
  {
    hide HasGot, Enabled, After, TakenBy;
    if moves == [] {
      assert got + [] == got;
    } else {
      MoveHasGot(s, moves[0], got);
      RunHasGot(After(s, moves[0]), moves[1..], got + TakenBy(moves[0]));
      Associates(got, TakenBy(moves[0]), Taken(moves[1..]));
    }
  }

  /** A run that has not failed had no round that was to fail. */
  lemma {:induction false} UnfailedPasses(s: Server, moves: seq<Move>)
    requires RunEnabled(s, moves) && !RunOf(s, moves).port.wait.Failed?
    ensures AllPass(s, moves)
    decreases |moves|
  {
    hide Step, MustFail, Answers;
    if moves != [] {
      UnfailedPasses(After(s, moves[0]), moves[1..]);
      if moves[0].Run? && MustFail(s, moves[0].v) {
        RejectedEnds(s, moves[0].v);
        FailedIsFinal(After(s, moves[0]), moves[1..]);
      }
    }
  }

  lemma RejectedEnds(s: Server, v: Verdict)
    requires s.port.wait.Ready? && !s.state.Done? && MustFail(s, v)
    ensures Step(s, v).port.wait.Failed?
  {
    hide Step, MustFail;
    RoundAnswers(s, v);
  }

  /**
   Whatever the peer sends and the callbacks answer: if a run of the server has not failed, no check was rejected and no
   message was other than the one due; and if it is done, the peer has sent the messages of the protocol that the
   options call for, each once and in order, and nothing else.
   */
  lemma DoneMeansAllReceived(cfg: Config, moves: seq<Move>)
    requires RunEnabled(Start(cfg), moves) && !RunOf(Start(cfg), moves).port.wait.Failed?
    ensures AllPass(Start(cfg), moves)
    ensures var s, got := RunOf(Start(cfg), moves), Taken(moves);
      && s.cfg == cfg && Settled(s, got)
      && (s.state.Done? ==> got == ClientUpTo(cfg, s.facts, Offers(got), 8))
  {
    hide ClientUpTo, RunOf, RunEnabled, AllPass;
    UnfailedPasses(Start(cfg), moves);
    StartHasGot(cfg);
    RunHasGot(Start(cfg), moves, []);
    assert [] + Taken(moves) == Taken(moves);
    RunKeepsOptions(Start(cfg), moves);
    var s := RunOf(Start(cfg), moves);
    if s.state.Done? {
      var all := ClientUpTo(s.cfg, s.facts, Offers(Taken(moves)), 8);
      assert all + Buffered(None) == all;
    }
  }

  lemma StartHasGot(cfg: Config)
    ensures HasGot(Start(cfg), [])
  {
  }

  lemma {:induction false} RunKeepsOptions(s: Server, moves: seq<Move>)
    requires RunEnabled(s, moves)
    ensures RunOf(s, moves).cfg == s.cfg
    decreases |moves|
  {
    hide Step, InFirstHalf;
    if moves != [] {
      RunKeepsOptions(After(s, moves[0]), moves[1..]);
      if moves[0].Run? {
        if InFirstHalf(s) {
          FirstHalfIsOrderly(s, moves[0].v);
        } else {
          SecondHalfIsOrderly(s, moves[0].v);
        }
      }
    }
  }
}
