/** The server's state machine for TLS 1.0 to 1.2. */
module TlsServer {
  import opened TlsHandshake

  datatype State =
    | StartAccept | ReadClientHello | SelectCertificate | SelectParameters | SendServerHello
    | SendServerCertificate | SendServerKeyExchange | SendServerHelloDone | ReadClientCertificate
    | VerifyClientCertificate | ReadClientKeyExchange | ReadClientCertificateVerify | ReadChangeCipherSpec
    | ProcessCcs | ReadNextProto | ReadChannelId | ReadClientFinished | SendServerFinished
    | FinishServerHandshake | Done

  /**
   What the server would do with this client: whether it can resume, the cipher it chooses, what it supports and
   whether it wants a client certificate.
   */
  datatype Config = Config(
    resumable: bool,
    kx: KeyExchange,
    pskAuth: bool,
    ticketsSupported: bool,
    renewTicket: bool,
    emptyTicket: bool,
    npn: bool,
    channelIdOffered: bool,
    sessionHasHashes: bool,
    ocsp: bool,
    hint: bool,
    verifyPeer: bool,
    notWithChannelId: bool,
    failIfNoCert: bool)

  /** What the handshake has settled so far. */
  datatype Facts = Facts(
    resumed: bool,
    ticketExpected: bool,
    channelId: bool,
    certRequest: bool,
    keyExchangeParams: bool,
    peerCert: bool)

  datatype Server = Server(cfg: Config, facts: Facts, state: State, port: Port) {
    function To(s: State, p: Port): Server { this.(state := s, port := p) }

    function Failing(): Server { this.(port := port.Fail()) }

    function Blocked(w: Wait): Server { this.(port := port.On(w)) }
  }

  /** What the ServerHello says. */
  function HelloOf(cfg: Config, f: Facts): Hello {
    Hello(f.resumed, cfg.kx, cfg.pskAuth, f.ticketExpected, cfg.npn, f.channelId, cfg.ocsp)
  }

  function Start(cfg: Config): Server {
    Server(cfg, Facts(false, false, cfg.channelIdOffered, false, false, false), StartAccept, NEW_PORT)
  }

  // ----- The states -----

  function DoStartAccept(s: Server): Server {
    var p := s.port;
    s.To(ReadClientHello, p)
  }

  function DoReadClientHello(s: Server, v: Verdict): Server {
    var p := s.port;
    if p.buffer.None? then s.Blocked(ReadMessage)
    else if !p.buffer.value.ClientHello? || v.Reject? then s.Failing()
    else if v.Retry? then s.Blocked(Pending)
    else s.To(SelectCertificate, p)
  }

  function DoSelectCertificate(s: Server, v: Verdict): Server {
    var p := s.port;
    if p.buffer.None? then s.Blocked(ReadMessage)
    else if v.Reject? then s.Failing()
    else if v.Retry? then s.Blocked(Pending)
    else s.To(SelectParameters, p)
  }

  function DoSelectParameters(s: Server, v: Verdict): Server {
    var p := s.port;
    if p.buffer.None? then s.Blocked(ReadMessage)
    else if !p.buffer.value.ClientHello? || v.Reject? then s.Failing()
    else if v.Retry? then s.Blocked(Pending)
    else
      var resumed := p.buffer.value.session && s.cfg.resumable;
      var facts := s.facts.(
        resumed := resumed,
        ticketExpected := if resumed then s.cfg.renewTicket else s.cfg.ticketsSupported,
        certRequest := !resumed && s.cfg.verifyPeer && !(s.cfg.notWithChannelId && s.facts.channelId) &&
          !s.cfg.pskAuth);
      s.(facts := facts, state := SendServerHello, port := p.Next())
  }

  function DoSendServerHello(s: Server, v: Verdict): Server {
    var p := s.port;
    if v.Reject? then s.Failing()
    else
      // Channel ID needs an ephemeral key exchange and, when resuming, the hashes of the first handshake.
      var valid := s.facts.channelId && s.cfg.kx.Ecdhe? && (s.facts.resumed ==> s.cfg.sessionHasHashes);
      var facts := s.facts.(channelId := valid);
      var next := if facts.resumed then SendServerFinished else SendServerCertificate;
      s.(facts := facts, state := next, port := p.Send([ServerHello(HelloOf(s.cfg, facts))]))
  }

  function DoSendServerCertificate(s: Server, v: Verdict): Server {
    var p := s.port;
    if v.Reject? then s.Failing()
    else
      var certs := if s.cfg.pskAuth then [] else [Certificate(true)] + if s.cfg.ocsp then [CertificateStatus] else [];
      var params := s.cfg.kx.Ecdhe? || (s.cfg.pskAuth && s.cfg.hint);
      s.(facts := s.facts.(keyExchangeParams := params), state := SendServerKeyExchange, port := p.Send(certs))
  }

  function DoSendServerKeyExchange(s: Server, v: Verdict): Server {
    var p := s.port;
    if !s.facts.keyExchangeParams then s.To(SendServerHelloDone, p)
    else if v.Reject? then s.Failing()
    else if !s.cfg.pskAuth && v.Retry? then s.Blocked(Pending)
    else
      var sent := s.facts.(keyExchangeParams := false);
      s.(facts := sent, state := SendServerHelloDone, port := p.Send([ServerKeyExchange]))
  }

  function DoSendServerHelloDone(s: Server, v: Verdict): Server {
    var p := s.port;
    if v.Reject? then s.Failing()
    else
      var items := (if s.facts.certRequest then [CertificateRequest] else []) + [ServerHelloDone];
      s.To(ReadClientCertificate, p.Send(items).On(Flush))
  }

  function DoReadClientCertificate(s: Server, v: Verdict): Server {
    var p := s.port;
    if !s.facts.certRequest then s.To(VerifyClientCertificate, p)
    else if p.buffer.None? then s.Blocked(ReadMessage)
    else if !p.buffer.value.Certificate? || v.Reject? then s.Failing()
    else if !p.buffer.value.present && s.cfg.failIfNoCert then s.Failing()
    else
      var known := s.facts.(peerCert := p.buffer.value.present);
      s.(facts := known, state := VerifyClientCertificate, port := p.Next())
  }

  function DoVerifyClientCertificate(s: Server, v: Verdict): Server {
    var p := s.port;
    if s.facts.peerCert && v.Retry? then s.Blocked(Pending)
    else if s.facts.peerCert && v.Reject? then s.Failing()
    else s.To(ReadClientKeyExchange, p)
  }

  function DoReadClientKeyExchange(s: Server, v: Verdict): Server {
    var p := s.port;
    if p.buffer.None? then s.Blocked(ReadMessage)
    else if !p.buffer.value.ClientKeyExchange? || v.Reject? then s.Failing()
    else if s.cfg.kx.Rsa? && v.Retry? then s.Blocked(Pending)
    else s.To(ReadClientCertificateVerify, p.Next())
  }

  function DoReadClientCertificateVerify(s: Server, v: Verdict): Server {
    var p := s.port;
    if !s.facts.peerCert then s.To(ReadChangeCipherSpec, p)
    else if p.buffer.None? then s.Blocked(ReadMessage)
    else if !p.buffer.value.CertificateVerify? || v.Reject? then s.Failing()
    else s.To(ReadChangeCipherSpec, p.Next())
  }

  function DoReadChangeCipherSpec(s: Server): Server {
    var p := s.port;
    s.To(ProcessCcs, p.On(ReadCcs))
  }

  function DoProcessCcs(s: Server, v: Verdict): Server {
    var p := s.port;
    var q := SwitchReadKey(p, v);
    if q.wait.Failed? then s.Failing() else s.To(ReadNextProto, q)
  }

  function DoReadNextProto(s: Server, v: Verdict): Server {
    var p := s.port;
    if !s.cfg.npn then s.To(ReadChannelId, p)
    else if p.buffer.None? then s.Blocked(ReadMessage)
    else if !p.buffer.value.NextProto? || v.Reject? then s.Failing()
    else s.To(ReadChannelId, p.Next())
  }

  function DoReadChannelId(s: Server, v: Verdict): Server {
    var p := s.port;
    if !s.facts.channelId then s.To(ReadClientFinished, p)
    else if p.buffer.None? then s.Blocked(ReadMessage)
    else if !p.buffer.value.ChannelId? || v.Reject? then s.Failing()
    else s.To(ReadClientFinished, p.Next())
  }

  function DoReadClientFinished(s: Server, v: Verdict): Server {
    var p := s.port;
    if p.buffer.None? then s.Blocked(ReadMessage)
    else if !p.buffer.value.Finished? || v.Reject? then s.Failing()
    else s.To(if s.facts.resumed then FinishServerHandshake else SendServerFinished, p.Next().Note(VerifyFinished))
  }

  function DoSendServerFinished(s: Server, v: Verdict): Server {
    var p := s.port;
    if v.Reject? then s.Failing()
    else
      var ticket := if s.facts.ticketExpected then [NewSessionTicket(s.cfg.emptyTicket)] else [];
      s.To(if s.facts.resumed then ReadChangeCipherSpec else FinishServerHandshake,
           p.Send(ticket + [Ccs]).Note(SetWriteKey).Send([Finished]).Note(SendFinished).On(Flush))
  }

  function DoFinishServerHandshake(s: Server): Server {
    var p := s.port;
    s.To(Done, p)
  }

  /** One round of the state machine's loop. */
  function Step(s: Server, v: Verdict): Server
    requires s.port.wait.Ready? && !s.state.Done?
  {
    match s.state
    case StartAccept => DoStartAccept(s)
    case ReadClientHello => DoReadClientHello(s, v)
    case SelectCertificate => DoSelectCertificate(s, v)
    case SelectParameters => DoSelectParameters(s, v)
    case SendServerHello => DoSendServerHello(s, v)
    case SendServerCertificate => DoSendServerCertificate(s, v)
    case SendServerKeyExchange => DoSendServerKeyExchange(s, v)
    case SendServerHelloDone => DoSendServerHelloDone(s, v)
    case ReadClientCertificate => DoReadClientCertificate(s, v)
    case VerifyClientCertificate => DoVerifyClientCertificate(s, v)
    case ReadClientKeyExchange => DoReadClientKeyExchange(s, v)
    case ReadClientCertificateVerify => DoReadClientCertificateVerify(s, v)
    case ReadChangeCipherSpec => DoReadChangeCipherSpec(s)
    case ProcessCcs => DoProcessCcs(s, v)
    case ReadNextProto => DoReadNextProto(s, v)
    case ReadChannelId => DoReadChannelId(s, v)
    case ReadClientFinished => DoReadClientFinished(s, v)
    case SendServerFinished => DoSendServerFinished(s, v)
    case FinishServerHandshake => DoFinishServerHandshake(s)
  }

  /** How far the handshake has come; a resumed one takes the states in another order. */
  function Rank(state: State, resumed: bool): (r: nat)
    ensures r <= LAST_RANK
  {
    match state
    case StartAccept => 0
    case ReadClientHello => 1
    case SelectCertificate => 2
    case SelectParameters => 3
    case SendServerHello => 4
    case SendServerCertificate => 5
    case SendServerKeyExchange => 6
    case SendServerHelloDone => 7
    case ReadClientCertificate => 8
    case VerifyClientCertificate => 9
    case ReadClientKeyExchange => 10
    case ReadClientCertificateVerify => 11
    case SendServerFinished => if resumed then 12 else 18
    case ReadChangeCipherSpec => 13
    case ProcessCcs => 14
    case ReadNextProto => 15
    case ReadChannelId => 16
    case ReadClientFinished => 17
    case FinishServerHandshake => 19
    case Done => 20
  }

  const LAST_RANK := 20

  predicate InFirstHalf(s: Server) {
    s.state.StartAccept? || s.state.ReadClientHello? || s.state.SelectCertificate? || s.state.SelectParameters? ||
    s.state.SendServerHello? || s.state.SendServerCertificate? || s.state.SendServerKeyExchange? ||
    s.state.SendServerHelloDone? || s.state.ReadClientCertificate? || s.state.VerifyClientCertificate?
  }

  predicate InMiddle(s: Server) {
    s.state.ReadClientKeyExchange? || s.state.ReadClientCertificateVerify? || s.state.ReadChangeCipherSpec? ||
    s.state.ProcessCcs? || s.state.ReadNextProto?
  }

  predicate InLastPart(s: Server) {
    s.state.ReadChannelId? || s.state.ReadClientFinished? || s.state.SendServerFinished? ||
    s.state.FinishServerHandshake?
  }

  /** A round fails, or moves on, or stops for a message that is not there or a callback that asks for time. */
  predicate Climbs(s: Server, t: Server, v: Verdict) {
    || t.port.wait.Failed?
    || Rank(t.state, t.facts.resumed) > Rank(s.state, s.facts.resumed)
    || (t == s.Blocked(t.port.wait) &&
      (if t.port.wait.ReadMessage? then s.port.buffer.None? else t.port.wait.Pending? && v.Retry?))
  }

  lemma FirstHalfClimbs(s: Server, v: Verdict)
    requires s.port.wait.Ready? && InFirstHalf(s)
    ensures Climbs(s, Step(s, v), v)
  {
  }

  lemma MiddleClimbs(s: Server, v: Verdict)
    requires s.port.wait.Ready? && InMiddle(s)
    ensures Climbs(s, Step(s, v), v)
  {
  }

  lemma LastPartClimbs(s: Server, v: Verdict)
    requires s.port.wait.Ready? && InLastPart(s)
    ensures Climbs(s, Step(s, v), v)
  {
  }

  lemma StepClimbs(s: Server, v: Verdict)
    requires s.port.wait.Ready? && !s.state.Done?
    ensures Climbs(s, Step(s, v), v)
  {
    hide Step, Climbs;
    if InFirstHalf(s) {
      FirstHalfClimbs(s, v);
    } else if InMiddle(s) {
      MiddleClimbs(s, v);
    } else {
      LastPartClimbs(s, v);
    }
  }

  /** What is to be sent is only added to, and a message that was read is either kept or done with. */
  predicate Orderly(s: Server, t: Server) {
    t.cfg == s.cfg && s.port.flight <= t.port.flight && (t.port.buffer == s.port.buffer || t.port.buffer.None?)
  }

  lemma FirstHalfIsOrderly(s: Server, v: Verdict)
    requires s.port.wait.Ready? && InFirstHalf(s)
    ensures Orderly(s, Step(s, v))
  {
  }

  lemma SecondHalfIsOrderly(s: Server, v: Verdict)
    requires s.port.wait.Ready? && !s.state.Done? && !InFirstHalf(s)
    ensures Orderly(s, Step(s, v))
  {
  }

  /** The machine's loop: rounds until one returns something other than success. `world(n)` answers the `n`-th round. */
  function Loop(s: Server, world: nat -> Verdict, n: nat): Server
    decreases LAST_RANK - Rank(s.state, s.facts.resumed)
  {
    if !s.port.wait.Ready? || s.state.Done? then s
    else
      var t := Step(s, world(n));
      StepClimbs(s, world(n));
      if t.port.wait.Ready? then Loop(t, world, n + 1) else t
  }

  // ----- One side in any environment -----

  predicate Enabled(s: Server, m: Move) {
    match m
    case Run(_) => s.port.wait.Ready? && !s.state.Done?
    case Flushed(k) => s.port.wait.Flush? && k <= |s.port.flight|
    case Arrives(_) => s.port.wait.ReadMessage? || s.port.wait.ReadCcs?
    case Called => s.port.wait.Pending? || s.port.wait.EarlyReturn?
  }

  function After(s: Server, m: Move): Server
    requires Enabled(s, m)
  {
    match m
    case Run(v) => Step(s, v)
    case Flushed(k) => s.(port := FlushSome(s.port, k))
    case Arrives(item) => s.(port := Receive(s.port, item))
    case Called => s.(port := Resume(s.port))
  }

  predicate RunEnabled(s: Server, moves: seq<Move>)
    decreases |moves|
  {
    moves == [] || (Enabled(s, moves[0]) && RunEnabled(After(s, moves[0]), moves[1..]))
  }

  function RunOf(s: Server, moves: seq<Move>): Server
    requires RunEnabled(s, moves)
    decreases |moves|
  {
    if moves == [] then s else RunOf(After(s, moves[0]), moves[1..])
  }

  lemma {:induction false} RunsCompose(s: Server, first: seq<Move>, second: seq<Move>)
    requires RunEnabled(s, first) && RunEnabled(RunOf(s, first), second)
    ensures RunEnabled(s, first + second) && RunOf(s, first + second) == RunOf(RunOf(s, first), second)
    decreases |first|
  {
    hide Enabled, After;
    if first == [] {
      assert first + second == second;
    } else {
      assert (first + second)[1..] == first[1..] + second;
      RunsCompose(After(s, first[0]), first[1..], second);
    }
  }

  lemma EmptyRun(s: Server)
    ensures RunEnabled(s, []) && RunOf(s, []) == s
  {
  }

  lemma Extend(s: Server, moves: seq<Move>, m: Move) returns (longer: seq<Move>)
    requires RunEnabled(s, moves) && Enabled(RunOf(s, moves), m)
    ensures longer == moves + [m] && RunEnabled(s, longer) && RunOf(s, longer) == After(RunOf(s, moves), m)
  {
    hide Enabled, After;
    longer := moves + [m];
    assert [m][1..] == [];
    RunsCompose(s, moves, [m]);
  }

  /** The loop is a run of rounds. */
  lemma {:induction false} LoopIsRun(s: Server, world: nat -> Verdict, n: nat) returns (moves: seq<Move>)
    ensures RunEnabled(s, moves) && RunOf(s, moves) == Loop(s, world, n)
    ensures forall i | 0 <= i < |moves| :: moves[i].Run?
    decreases LAST_RANK - Rank(s.state, s.facts.resumed)
  {
    hide Step, Rank;
    if s.port.wait.Ready? && !s.state.Done? {
      var t := Step(s, world(n));
      StepClimbs(s, world(n));
      var rest := [];
      if t.port.wait.Ready? {
        rest := LoopIsRun(t, world, n + 1);
      }
      moves := [Run(world(n))] + rest;
      assert moves[1..] == rest;
    } else {
      moves := [];
    }
  }

  /** The loop stops at the end, or where it has to wait; it does not stop where it started without a reason. */
  lemma {:induction false} LoopClimbs(s: Server, world: nat -> Verdict, n: nat)
    requires s.port.wait.Ready?
    ensures var t := Loop(s, world, n);
      && (t.port.wait.Ready? ==> t.state.Done?)
      && (t.port.wait.Failed? || Rank(t.state, t.facts.resumed) > Rank(s.state, s.facts.resumed) ||
          t == s || t == s.Blocked(ReadMessage) || t == s.Blocked(Pending))
    decreases LAST_RANK - Rank(s.state, s.facts.resumed)
  {
    hide Step, Rank;
    if !s.state.Done? {
      var t := Step(s, world(n));
      StepClimbs(s, world(n));
      if t.port.wait.Ready? {
        LoopClimbs(t, world, n + 1);
      }
    }
  }

  /** Over the whole loop, what is to be sent is only added to. */
  lemma {:induction false} LoopIsOrderly(s: Server, world: nat -> Verdict, n: nat)
    ensures Orderly(s, Loop(s, world, n))
    decreases LAST_RANK - Rank(s.state, s.facts.resumed)
  {
    hide Step, Rank, InFirstHalf;
    if s.port.wait.Ready? && !s.state.Done? {
      var t := Step(s, world(n));
      if InFirstHalf(s) {
        FirstHalfIsOrderly(s, world(n));
      } else {
        SecondHalfIsOrderly(s, world(n));
      }
      StepClimbs(s, world(n));
      if t.port.wait.Ready? {
        LoopIsOrderly(t, world, n + 1);
      }
    }
  }

  /** What the log holds in each state: in a full handshake the server reads first, in a resumed one it writes first. */
  function LogIn(state: State, resumed: bool): Log {
    var first := if resumed then Wrote(Nothing) else Nothing;
    match state
    case ReadChangeCipherSpec => first
    case ProcessCcs => first
    case ReadNextProto => And(first, SetReadKey)
    case ReadChannelId => And(first, SetReadKey)
    case ReadClientFinished => And(first, SetReadKey)
    case SendServerFinished => if resumed then Nothing else Verified(Nothing)
    case FinishServerHandshake => if resumed then Verified(Wrote(Nothing)) else Wrote(Verified(Nothing))
    case Done => if resumed then Verified(Wrote(Nothing)) else Wrote(Verified(Nothing))
    case _ => Nothing
  }

  /** The states of the full handshake alone. */
  predicate FullOnly(state: State) {
    match state
    case SendServerHello => false
    case ReadChangeCipherSpec => false
    case ProcessCcs => false
    case ReadNextProto => false
    case ReadChannelId => false
    case ReadClientFinished => false
    case SendServerFinished => false
    case FinishServerHandshake => false
    case Done => false
    case _ => true
  }

  predicate LogMatches(s: Server) {
    s.port.wait.Failed? || (s.port.log == LogIn(s.state, s.facts.resumed) && (FullOnly(s.state) ==> !s.facts.resumed))
  }

  lemma FirstHalfKeepsLog(s: Server, v: Verdict)
    requires LogMatches(s) && s.port.wait.Ready? && InFirstHalf(s)
    ensures LogMatches(Step(s, v))
  {
  }

  lemma MiddleKeepsLog(s: Server, v: Verdict)
    requires LogMatches(s) && s.port.wait.Ready? && InMiddle(s)
    ensures LogMatches(Step(s, v))
  {
  }

  lemma ReadFinishedKeepsLog(s: Server, v: Verdict)
    requires LogMatches(s) && s.port.wait.Ready? && s.state.ReadClientFinished?
    ensures LogMatches(DoReadClientFinished(s, v))
  {
  }

  lemma SendFinishedKeepsLog(s: Server, v: Verdict)
    requires LogMatches(s) && s.port.wait.Ready? && s.state.SendServerFinished?
    ensures LogMatches(DoSendServerFinished(s, v))
  {
  }

  lemma LastPartKeepsLog(s: Server, v: Verdict)
    requires LogMatches(s) && s.port.wait.Ready? && InLastPart(s)
    ensures LogMatches(Step(s, v))
  {
    hide DoReadClientFinished, DoSendServerFinished;
    if s.state.ReadClientFinished? {
      ReadFinishedKeepsLog(s, v);
    } else if s.state.SendServerFinished? {
      SendFinishedKeepsLog(s, v);
    }
  }

  lemma MoveKeepsLog(s: Server, m: Move)
    requires LogMatches(s) && Enabled(s, m)
    ensures LogMatches(After(s, m))
  {
    hide Step;
    if m.Run? {
      if InFirstHalf(s) {
        FirstHalfKeepsLog(s, m.v);
      } else if InMiddle(s) {
        MiddleKeepsLog(s, m.v);
      } else {
        LastPartKeepsLog(s, m.v);
      }
    }
  }

  lemma {:induction false} RunKeepsLog(s: Server, moves: seq<Move>)
    requires LogMatches(s) && RunEnabled(s, moves)
    ensures LogMatches(RunOf(s, moves))
    decreases |moves|
  {
    hide LogMatches, Enabled, After;
    if moves != [] {
      MoveKeepsLog(s, moves[0]);
      RunKeepsLog(After(s, moves[0]), moves[1..]);
    }
  }

  lemma DoneLog(s: Server)
    requires LogMatches(s) && s.state.Done? && !s.port.wait.Failed?
    ensures s.port.log == LogIn(Done, s.facts.resumed)
  {
  }

  /**
   In every run that reaches the end, whatever the peer and the callbacks do, the server has sent exactly one
   Finished and verified exactly one, each right after that direction's only change of key.
   */
  lemma DoneMeansFinished(cfg: Config, moves: seq<Move>)
    requires RunEnabled(Start(cfg), moves)
    requires var s := RunOf(Start(cfg), moves); s.state.Done? && !s.port.wait.Failed?
    ensures var s := RunOf(Start(cfg), moves);
      s.port.log == if s.facts.resumed then Verified(Wrote(Nothing)) else Wrote(Verified(Nothing))
  {
    RunKeepsLog(Start(cfg), moves);
  }
}
