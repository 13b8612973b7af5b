/** The client's state machine for TLS 1.0 to 1.2. */
module TlsClient {
  import opened TlsHandshake

  datatype State =
    | StartConnect | EnterEarlyData | ReadServerHello | ReadServerCertificate | ReadCertificateStatus
    | VerifyServerCertificate | ReadServerKeyExchange | ReadCertificateRequest | ReadServerHelloDone
    | SendClientCertificate | SendClientKeyExchange | SendClientCertificateVerify | SendClientFinished
    | FinishFlight | ReadSessionTicket | ProcessCcs | ReadServerFinished | FinishClientHandshake | Done

  /** Whether the client offers a session, has a certificate, and may start sending early. */
  datatype Config = Config(session: bool, hasCert: bool, falseStart: bool)

  /** What the handshake has settled so far. */
  datatype Facts = Facts(resumed: bool, hello: Hello, ticketExpected: bool, certRequest: bool)

  datatype Client = Client(cfg: Config, facts: Facts, state: State, port: Port) {
    function To(s: State, p: Port): Client { this.(state := s, port := p) }

    function Failing(): Client { this.(port := port.Fail()) }

    function Blocked(w: Wait): Client { this.(port := port.On(w)) }
  }

  const NO_HELLO := Hello(false, Rsa, false, false, false, false, false)

  function Start(cfg: Config): Client {
    Client(cfg, Facts(false, NO_HELLO, false, false), StartConnect, NEW_PORT)
  }

  // ----- The states -----

  function DoStartConnect(c: Client, v: Verdict): Client {
    var p := c.port;
    if v.Reject? then c.Failing() else c.To(EnterEarlyData, p.Send([ClientHello(c.cfg.session)]).On(Flush))
  }

  function DoEnterEarlyData(c: Client): Client {
    var p := c.port;
    c.To(ReadServerHello, p)
  }

  function DoReadServerHello(c: Client, v: Verdict): Client {
    var p := c.port;
    if p.buffer.None? then c.Blocked(ReadMessage)
    else if !p.buffer.value.ServerHello? || v.Reject? then c.Failing()
    else
      var h := p.buffer.value.hello;
      var resumed := c.cfg.session && h.resumed;
      var facts := c.facts.(resumed := resumed, hello := h, ticketExpected := h.ticket);
      c.(facts := facts, state := if resumed then ReadSessionTicket else ReadServerCertificate, port := p.Next())
  }

  function DoReadServerCertificate(c: Client, v: Verdict): Client {
    var p := c.port;
    if !c.facts.hello.CertAuth() then c.To(ReadCertificateStatus, p)
    else if p.buffer.None? then c.Blocked(ReadMessage)
    else if !p.buffer.value.Certificate? || !p.buffer.value.present || v.Reject? then c.Failing()
    else c.To(ReadCertificateStatus, p.Next())
  }

  function DoReadCertificateStatus(c: Client, v: Verdict): Client {
    var p := c.port;
    if !c.facts.hello.ocsp then c.To(VerifyServerCertificate, p)
    else if p.buffer.None? then c.Blocked(ReadMessage)
    else if !p.buffer.value.CertificateStatus? then c.To(VerifyServerCertificate, p)
    else if v.Reject? then c.Failing()
    else c.To(VerifyServerCertificate, p.Next())
  }

  function DoVerifyServerCertificate(c: Client, v: Verdict): Client {
    var p := c.port;
    if !c.facts.hello.CertAuth() then c.To(ReadServerKeyExchange, p)
    else if v.Retry? then c.Blocked(Pending)
    else if v.Reject? then c.Failing()
    else c.To(ReadServerKeyExchange, p)
  }

  function DoReadServerKeyExchange(c: Client, v: Verdict): Client {
    var p := c.port;
    if p.buffer.None? then c.Blocked(ReadMessage)
    else if !p.buffer.value.ServerKeyExchange? then
      if c.facts.hello.NeedsServerKeyExchange() then c.Failing() else c.To(ReadCertificateRequest, p)
    else if c.facts.hello.kx.Rsa? || v.Reject? then c.Failing()
    else c.To(ReadCertificateRequest, p.Next())
  }

  function DoReadCertificateRequest(c: Client, v: Verdict): Client {
    var p := c.port;
    if !c.facts.hello.CertAuth() then c.To(ReadServerHelloDone, p)
    else if p.buffer.None? then c.Blocked(ReadMessage)
    else if p.buffer.value.ServerHelloDone? then c.To(ReadServerHelloDone, p)
    else if !p.buffer.value.CertificateRequest? || v.Reject? then c.Failing()
    else
      var asked := c.facts.(certRequest := true);
      c.(facts := asked, state := ReadServerHelloDone, port := p.Next())
  }

  function DoReadServerHelloDone(c: Client, v: Verdict): Client {
    var p := c.port;
    if p.buffer.None? then c.Blocked(ReadMessage)
    else if !p.buffer.value.ServerHelloDone? || v.Reject? then c.Failing()
    else c.To(SendClientCertificate, p.Next())
  }

  function DoSendClientCertificate(c: Client, v: Verdict): Client {
    var p := c.port;
    if !c.facts.certRequest then c.To(SendClientKeyExchange, p)
    else if v.Retry? then c.Blocked(Pending)
    else if v.Reject? then c.Failing()
    else c.To(SendClientKeyExchange, p.Send([Certificate(c.cfg.hasCert)]))
  }

  function DoSendClientKeyExchange(c: Client, v: Verdict): Client {
    var p := c.port;
    if v.Reject? then c.Failing() else c.To(SendClientCertificateVerify, p.Send([ClientKeyExchange]))
  }

  function DoSendClientCertificateVerify(c: Client, v: Verdict): Client {
    var p := c.port;
    if !c.facts.certRequest || !c.cfg.hasCert then c.To(SendClientFinished, p)
    else if v.Retry? then c.Blocked(Pending)
    else if v.Reject? then c.Failing()
    else c.To(SendClientFinished, p.Send([CertificateVerify]))
  }

  function DoSendClientFinished(c: Client, v: Verdict): Client {
    var p := c.port;
    if c.facts.hello.channelId && v.Retry? then c.Blocked(Pending)
    else if v.Reject? then c.Failing()
    else
      var last := (if c.facts.hello.npn then [NextProto] else []) +
        (if c.facts.hello.channelId then [ChannelId] else []) + [Finished];
      c.To(FinishFlight, p.Send([Ccs]).Note(SetWriteKey).Send(last).Note(SendFinished).On(Flush))
  }

  function DoFinishFlight(c: Client, v: Verdict): Client {
    var p := c.port;
    if c.facts.resumed then c.To(FinishClientHandshake, p)
    else if v.Reject? then c.Failing()
    else c.To(ReadSessionTicket, if c.cfg.falseStart then p.On(EarlyReturn) else p)
  }

  function DoReadSessionTicket(c: Client, v: Verdict): Client {
    var p := c.port;
    if !c.facts.ticketExpected then c.To(ProcessCcs, p.On(ReadCcs))
    else if p.buffer.None? then c.Blocked(ReadMessage)
    else if !p.buffer.value.NewSessionTicket? || v.Reject? then c.Failing()
    else
      var facts := c.facts.(ticketExpected := !p.buffer.value.empty);
      c.(facts := facts, state := ProcessCcs, port := p.Next().On(ReadCcs))
  }

  function DoProcessCcs(c: Client, v: Verdict): Client {
    var p := c.port;
    var q := SwitchReadKey(p, v);
    if q.wait.Failed? then c.Failing() else c.To(ReadServerFinished, q)
  }

  function DoReadServerFinished(c: Client, v: Verdict): Client {
    var p := c.port;
    if p.buffer.None? then c.Blocked(ReadMessage)
    else if !p.buffer.value.Finished? || v.Reject? then c.Failing()
    else c.To(if c.facts.resumed then SendClientFinished else FinishClientHandshake, p.Next().Note(VerifyFinished))
  }

  function DoFinishClientHandshake(c: Client): Client {
    var p := c.port;
    c.To(Done, p)
  }

  /** One round of the state machine's loop. */
  function Step(c: Client, v: Verdict): Client
    requires c.port.wait.Ready? && !c.state.Done?
  {
    match c.state
    case StartConnect => DoStartConnect(c, v)
    case EnterEarlyData => DoEnterEarlyData(c)
    case ReadServerHello => DoReadServerHello(c, v)
    case ReadServerCertificate => DoReadServerCertificate(c, v)
    case ReadCertificateStatus => DoReadCertificateStatus(c, v)
    case VerifyServerCertificate => DoVerifyServerCertificate(c, v)
    case ReadServerKeyExchange => DoReadServerKeyExchange(c, v)
    case ReadCertificateRequest => DoReadCertificateRequest(c, v)
    case ReadServerHelloDone => DoReadServerHelloDone(c, v)
    case SendClientCertificate => DoSendClientCertificate(c, v)
    case SendClientKeyExchange => DoSendClientKeyExchange(c, v)
    case SendClientCertificateVerify => DoSendClientCertificateVerify(c, v)
    case SendClientFinished => DoSendClientFinished(c, v)
    case FinishFlight => DoFinishFlight(c, v)
    case ReadSessionTicket => DoReadSessionTicket(c, v)
    case ProcessCcs => DoProcessCcs(c, v)
    case ReadServerFinished => DoReadServerFinished(c, v)
    case FinishClientHandshake => DoFinishClientHandshake(c)
  }

  /** How far the handshake has come; a resumed one takes the states in another order. */
  function Rank(state: State, resumed: bool): (r: nat)
    ensures r <= LAST_RANK
  {
    match state
    case StartConnect => 0
    case EnterEarlyData => 1
    case ReadServerHello => 2
    case ReadServerCertificate => 3
    case ReadCertificateStatus => 4
    case VerifyServerCertificate => 5
    case ReadServerKeyExchange => 6
    case ReadCertificateRequest => 7
    case ReadServerHelloDone => 8
    case SendClientCertificate => 9
    case SendClientKeyExchange => 10
    case SendClientCertificateVerify => 11
    case SendClientFinished => if resumed then 17 else 12
    case FinishFlight => if resumed then 18 else 13
    case ReadSessionTicket => 14
    case ProcessCcs => 15
    case ReadServerFinished => 16
    case FinishClientHandshake => 19
    case Done => 20
  }

  const LAST_RANK := 20

  predicate InFirstHalf(c: Client) {
    c.state.StartConnect? || c.state.EnterEarlyData? || c.state.ReadServerHello? || c.state.ReadServerCertificate? ||
    c.state.ReadCertificateStatus? || c.state.VerifyServerCertificate? || c.state.ReadServerKeyExchange? ||
    c.state.ReadCertificateRequest? || c.state.ReadServerHelloDone? || c.state.SendClientCertificate?
  }

  /** A round fails, or moves on, or stops for a message that is not there or a callback that asks for time. */
  predicate Climbs(c: Client, t: Client, v: Verdict) {
    || t.port.wait.Failed?
    || Rank(t.state, t.facts.resumed) > Rank(c.state, c.facts.resumed)
    || (t == c.Blocked(t.port.wait) &&
      (if t.port.wait.ReadMessage? then c.port.buffer.None? else t.port.wait.Pending? && v.Retry?))
  }

  lemma FirstHalfClimbs(c: Client, v: Verdict)
    requires c.port.wait.Ready? && InFirstHalf(c)
    ensures Climbs(c, Step(c, v), v)
  {
  }

  lemma SecondHalfClimbs(c: Client, v: Verdict)
    requires c.port.wait.Ready? && !c.state.Done? && !InFirstHalf(c)
    ensures Climbs(c, Step(c, v), v)
  {
  }

  lemma StepClimbs(c: Client, v: Verdict)
    requires c.port.wait.Ready? && !c.state.Done?
    ensures Climbs(c, Step(c, v), v)
  {
    hide Step, Climbs;
    if InFirstHalf(c) {
      FirstHalfClimbs(c, v);
    } else {
      SecondHalfClimbs(c, v);
    }
  }

  /** What is to be sent is only added to, and a message that was read is either kept or done with. */
  predicate Orderly(c: Client, t: Client) {
    t.cfg == c.cfg && c.port.flight <= t.port.flight && (t.port.buffer == c.port.buffer || t.port.buffer.None?)
  }

  lemma FirstHalfIsOrderly(c: Client, v: Verdict)
    requires c.port.wait.Ready? && InFirstHalf(c)
    ensures Orderly(c, Step(c, v))
  {
  }

  lemma SecondHalfIsOrderly(c: Client, v: Verdict)
    requires c.port.wait.Ready? && !c.state.Done? && !InFirstHalf(c)
    ensures Orderly(c, Step(c, v))
  {
  }

  /** The machine's loop: rounds until one returns something other than success. `world(n)` answers the `n`-th round. */
  function Loop(c: Client, world: nat -> Verdict, n: nat): Client
    decreases LAST_RANK - Rank(c.state, c.facts.resumed)
  {
    if !c.port.wait.Ready? || c.state.Done? then c
    else
      var t := Step(c, world(n));
      StepClimbs(c, world(n));
      if t.port.wait.Ready? then Loop(t, world, n + 1) else t
  }

  // ----- One side in any environment -----

  predicate Enabled(c: Client, m: Move) {
    match m
    case Run(_) => c.port.wait.Ready? && !c.state.Done?
    case Flushed(k) => c.port.wait.Flush? && k <= |c.port.flight|
    case Arrives(_) => c.port.wait.ReadMessage? || c.port.wait.ReadCcs?
    case Called => c.port.wait.Pending? || c.port.wait.EarlyReturn?
  }

  function After(c: Client, m: Move): Client
    requires Enabled(c, m)
  {
    match m
    case Run(v) => Step(c, v)
    case Flushed(k) => c.(port := FlushSome(c.port, k))
    case Arrives(item) => c.(port := Receive(c.port, item))
    case Called => c.(port := Resume(c.port))
  }

  predicate RunEnabled(c: Client, moves: seq<Move>)
    decreases |moves|
  {
    moves == [] || (Enabled(c, moves[0]) && RunEnabled(After(c, moves[0]), moves[1..]))
  }

  function RunOf(c: Client, moves: seq<Move>): Client
    requires RunEnabled(c, moves)
    decreases |moves|
  {
    if moves == [] then c else RunOf(After(c, moves[0]), moves[1..])
  }

  lemma {:induction false} RunsCompose(c: Client, first: seq<Move>, second: seq<Move>)
    requires RunEnabled(c, first) && RunEnabled(RunOf(c, first), second)
    ensures RunEnabled(c, first + second) && RunOf(c, first + second) == RunOf(RunOf(c, first), second)
    decreases |first|
  {
    hide Enabled, After;
    if first == [] {
      assert first + second == second;
    } else {
      assert (first + second)[1..] == first[1..] + second;
      RunsCompose(After(c, first[0]), first[1..], second);
    }
  }

  lemma EmptyRun(c: Client)
    ensures RunEnabled(c, []) && RunOf(c, []) == c
  {
  }

  lemma Extend(c: Client, moves: seq<Move>, m: Move) returns (longer: seq<Move>)
    requires RunEnabled(c, moves) && Enabled(RunOf(c, moves), m)
    ensures longer == moves + [m] && RunEnabled(c, longer) && RunOf(c, longer) == After(RunOf(c, moves), m)
  {
    hide Enabled, After;
    longer := moves + [m];
    assert [m][1..] == [];
    RunsCompose(c, moves, [m]);
  }

  /** The loop is a run of rounds. */
  lemma {:induction false} LoopIsRun(c: Client, world: nat -> Verdict, n: nat) returns (moves: seq<Move>)
    ensures RunEnabled(c, moves) && RunOf(c, moves) == Loop(c, world, n)
    ensures forall i | 0 <= i < |moves| :: moves[i].Run?
    decreases LAST_RANK - Rank(c.state, c.facts.resumed)
  {
    hide Step, Rank;
    if c.port.wait.Ready? && !c.state.Done? {
      var t := Step(c, world(n));
      StepClimbs(c, world(n));
      var rest := [];
      if t.port.wait.Ready? {
        rest := LoopIsRun(t, world, n + 1);
      }
      moves := [Run(world(n))] + rest;
      assert moves[1..] == rest;
    } else {
      moves := [];
    }
  }

  /** The loop stops at the end, or where it has to wait; it does not stop where it started without a reason. */
  lemma {:induction false} LoopClimbs(c: Client, world: nat -> Verdict, n: nat)
    requires c.port.wait.Ready?
    ensures var t := Loop(c, world, n);
      && (t.port.wait.Ready? ==> t.state.Done?)
      && (t.port.wait.Failed? || Rank(t.state, t.facts.resumed) > Rank(c.state, c.facts.resumed) ||
          t == c || t == c.Blocked(ReadMessage) || t == c.Blocked(Pending))
    decreases LAST_RANK - Rank(c.state, c.facts.resumed)
  {
    hide Step, Rank;
    if !c.state.Done? {
      var t := Step(c, world(n));
      StepClimbs(c, world(n));
      if t.port.wait.Ready? {
        LoopClimbs(t, world, n + 1);
      }
    }
  }

  /** Over the whole loop, what is to be sent is only added to. */
  lemma {:induction false} LoopIsOrderly(c: Client, world: nat -> Verdict, n: nat)
    ensures Orderly(c, Loop(c, world, n))
    decreases LAST_RANK - Rank(c.state, c.facts.resumed)
  {
    hide Step, Rank, InFirstHalf;
    if c.port.wait.Ready? && !c.state.Done? {
      var t := Step(c, world(n));
      if InFirstHalf(c) {
        FirstHalfIsOrderly(c, world(n));
      } else {
        SecondHalfIsOrderly(c, world(n));
      }
      StepClimbs(c, world(n));
      if t.port.wait.Ready? {
        LoopIsOrderly(t, world, n + 1);
      }
    }
  }

  /** What the log holds in each state: in a full handshake the client writes first, in a resumed one it reads first. */
  function LogIn(state: State, resumed: bool): Log {
    var first := if resumed then Nothing else Wrote(Nothing);
    match state
    case SendClientFinished => if resumed then Verified(Nothing) else Nothing
    case FinishFlight => if resumed then Wrote(Verified(Nothing)) else Wrote(Nothing)
    case ReadSessionTicket => first
    case ProcessCcs => first
    case ReadServerFinished => And(first, SetReadKey)
    case FinishClientHandshake => if resumed then Wrote(Verified(Nothing)) else Verified(Wrote(Nothing))
    case Done => if resumed then Wrote(Verified(Nothing)) else Verified(Wrote(Nothing))
    case _ => Nothing
  }

  /** The states of the full handshake alone. */
  predicate FullOnly(state: State) {
    match state
    case SendClientFinished => false
    case FinishFlight => false
    case ReadSessionTicket => false
    case ProcessCcs => false
    case ReadServerFinished => false
    case FinishClientHandshake => false
    case Done => false
    case _ => true
  }

  predicate LogMatches(c: Client) {
    c.port.wait.Failed? || (c.port.log == LogIn(c.state, c.facts.resumed) && (FullOnly(c.state) ==> !c.facts.resumed))
  }

  lemma FirstHalfKeepsLog(c: Client, v: Verdict)
    requires LogMatches(c) && c.port.wait.Ready? && InFirstHalf(c)
    ensures LogMatches(Step(c, v))
  {
  }

  lemma SecondHalfKeepsLog(c: Client, v: Verdict)
    requires LogMatches(c) && c.port.wait.Ready? && !c.state.Done? && !InFirstHalf(c)
    ensures LogMatches(Step(c, v))
  {
  }

  lemma MoveKeepsLog(c: Client, m: Move)
    requires LogMatches(c) && Enabled(c, m)
    ensures LogMatches(After(c, m))
  {
    hide Step;
    if m.Run? {
      if InFirstHalf(c) {
        FirstHalfKeepsLog(c, m.v);
      } else {
        SecondHalfKeepsLog(c, m.v);
      }
    }
  }

  lemma {:induction false} RunKeepsLog(c: Client, moves: seq<Move>)
    requires LogMatches(c) && RunEnabled(c, moves)
    ensures LogMatches(RunOf(c, moves))
    decreases |moves|
  {
    hide LogMatches, Enabled, After;
    if moves != [] {
      MoveKeepsLog(c, moves[0]);
      RunKeepsLog(After(c, moves[0]), moves[1..]);
    }
  }

  lemma DoneLog(c: Client)
    requires LogMatches(c) && c.state.Done? && !c.port.wait.Failed?
    ensures c.port.log == LogIn(Done, c.facts.resumed)
  {
  }

  /**
   In every run that reaches the end, whatever the peer and the callbacks do, the client has sent exactly one
   Finished and verified exactly one, each right after that direction's only change of key.
   */
  lemma DoneMeansFinished(cfg: Config, moves: seq<Move>)
    requires RunEnabled(Start(cfg), moves)
    requires var c := RunOf(Start(cfg), moves); c.state.Done? && !c.port.wait.Failed?
    ensures var c := RunOf(Start(cfg), moves);
      c.port.log == if c.facts.resumed then Wrote(Verified(Nothing)) else Verified(Wrote(Nothing))
  {
    RunKeepsLog(Start(cfg), moves);
  }
}
