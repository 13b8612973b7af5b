/**
 The two machines joined by a reliable transport that may take any part of a flight at a time and may deliver at any
 time. With agreed options neither side fails, neither waits for ever, and both can finish: the handshake can be
 completed from every state that can be reached.
 */
module TlsComposed {
  import opened TlsHandshake
  import opened TlsScript
  import TlsClient
  import TlsServer
  import ClientSide = TlsClientFollows
  import ServerSide = TlsServerFollows

  datatype System = System(
    client: TlsClient.Client,
    server: TlsServer.Server,
    toServer: seq<Item>,
    toClient: seq<Item>)
  {
    predicate BothDone() { client.state.Done? && server.state.Done? }

    predicate NoneFailed() { !client.port.wait.Failed? && !server.port.wait.Failed? }
  }

  function Start(d: Deal): System {
    System(TlsClient.Start(d.client), TlsServer.Start(d.server), [], [])
  }

  // ----- Steps -----

  /**
   One side runs a round of its machine, or hands `k` items to the transport, or takes in the next item, or is called
   again. No check fails by itself (`wait` says whether a callback asks for time), and nothing is lost.
   */
  datatype Move =
    | ClientRuns(later: bool) | ClientFlushes(k: nat) | ClientReceives | ClientCalled
    | ServerRuns(later: bool) | ServerFlushes(k: nat) | ServerReceives | ServerCalled

  function Answer(later: bool): Verdict { if later then Retry else Accept }

  predicate Reading(p: Port) { p.wait.ReadMessage? || p.wait.ReadCcs? }

  predicate Paused(p: Port) { p.wait.Pending? || p.wait.EarlyReturn? }

  predicate Enabled(y: System, m: Move) {
    match m
    case ClientRuns(_) => y.client.port.wait.Ready? && !y.client.state.Done?
    case ClientFlushes(k) => y.client.port.wait.Flush? && k <= |y.client.port.flight|
    case ClientReceives => Reading(y.client.port) && y.toClient != []
    case ClientCalled => Paused(y.client.port)
    case ServerRuns(_) => y.server.port.wait.Ready? && !y.server.state.Done?
    case ServerFlushes(k) => y.server.port.wait.Flush? && k <= |y.server.port.flight|
    case ServerReceives => Reading(y.server.port) && y.toServer != []
    case ServerCalled => Paused(y.server.port)
  }

  function ClientMoves(y: System, m: Move): System
    requires Enabled(y, m) && (m.ClientRuns? || m.ClientFlushes? || m.ClientReceives? || m.ClientCalled?)
  {
    var c := y.client;
    if m.ClientRuns? then y.(client := TlsClient.Step(c, Answer(m.later)))
    else if m.ClientFlushes? then
      y.(client := c.(port := FlushSome(c.port, m.k)), toServer := y.toServer + c.port.flight[..m.k])
    else if m.ClientReceives? then
      y.(client := c.(port := Receive(c.port, y.toClient[0])), toClient := y.toClient[1..])
    else y.(client := c.(port := Resume(c.port)))
  }

  function ServerMoves(y: System, m: Move): System
    requires Enabled(y, m) && (m.ServerRuns? || m.ServerFlushes? || m.ServerReceives? || m.ServerCalled?)
  {
    var s := y.server;
    if m.ServerRuns? then y.(server := TlsServer.Step(s, Answer(m.later)))
    else if m.ServerFlushes? then
      y.(server := s.(port := FlushSome(s.port, m.k)), toClient := y.toClient + s.port.flight[..m.k])
    else if m.ServerReceives? then
      y.(server := s.(port := Receive(s.port, y.toServer[0])), toServer := y.toServer[1..])
    else y.(server := s.(port := Resume(s.port)))
  }

  function After(y: System, m: Move): System
    requires Enabled(y, m)
  {
    if m.ClientRuns? || m.ClientFlushes? || m.ClientReceives? || m.ClientCalled? then ClientMoves(y, m)
    else ServerMoves(y, m)
  }

  predicate RunEnabled(y: System, moves: seq<Move>)
    decreases |moves|
  {
    moves == [] || (Enabled(y, moves[0]) && RunEnabled(After(y, moves[0]), moves[1..]))
  }

  function RunOf(y: System, moves: seq<Move>): System
    requires RunEnabled(y, moves)
    decreases |moves|
  {
    if moves == [] then y else RunOf(After(y, moves[0]), moves[1..])
  }

  // ----- What every step keeps -----

  /** What the client still gets: what is under way, and what the server has yet to hand over. */
  function ForClient(d: Deal, y: System): seq<Item> { y.toClient + ServerSide.Outgoing(d, y.server) }

  function ForServer(d: Deal, y: System): seq<Item> { y.toServer + ClientSide.Outgoing(d, y.client) }

  predicate Inv(d: Deal, y: System) {
    ClientSide.Follows(d, y.client, ForClient(d, y)) && ServerSide.Follows(d, y.server, ForServer(d, y))
  }

  lemma StartFollows(d: Deal)
    requires d.Consistent()
    ensures Inv(d, Start(d))
  {
    hide ClientFrom, ServerFrom, ClientSide.Follows, ServerSide.Follows;
    ClientSide.StartFollows(d);
    ServerSide.StartFollows(d);
    assert [] + ClientFrom(d, 0) == ClientFrom(d, 0);
    assert [] + ServerFrom(d, 0) == ServerFrom(d, 0);
  }

  lemma ClientMoveKeeps(d: Deal, y: System, m: Move)
    requires Inv(d, y) && Enabled(y, m) && (m.ClientRuns? || m.ClientFlushes? || m.ClientReceives? || m.ClientCalled?)
    ensures Inv(d, ClientMoves(y, m))
  {
    hide ClientSide.Follows, ServerSide.Follows, ClientSide.Outgoing, ServerSide.Outgoing, TlsClient.Step, FlushSome,
      Receive, Resume;
    var x := ForClient(d, y);
    if m.ClientRuns? {
      ClientSide.StepFollows(d, y.client, Answer(m.later), x);
    } else if m.ClientFlushes? {
      ClientSide.FlushFollows(d, y.client, m.k, x);
      var t := y.client.(port := FlushSome(y.client.port, m.k));
      assert y.toServer + (y.client.port.flight[..m.k] + ClientSide.Outgoing(d, t))
          == (y.toServer + y.client.port.flight[..m.k]) + ClientSide.Outgoing(d, t);
    } else if m.ClientReceives? {
      ClientSide.ReceiveFollows(d, y.client, x);
      assert x[0] == y.toClient[0] && x[1..] == y.toClient[1..] + ServerSide.Outgoing(d, y.server);
    } else {
      ClientSide.ResumeFollows(d, y.client, x);
    }
  }

  lemma ServerMoveKeeps(d: Deal, y: System, m: Move)
    requires Inv(d, y) && Enabled(y, m) && (m.ServerRuns? || m.ServerFlushes? || m.ServerReceives? || m.ServerCalled?)
    ensures Inv(d, ServerMoves(y, m))
  {
    hide ClientSide.Follows, ServerSide.Follows, ClientSide.Outgoing, ServerSide.Outgoing, TlsServer.Step, FlushSome,
      Receive, Resume;
    var x := ForServer(d, y);
    if m.ServerRuns? {
      ServerSide.StepFollows(d, y.server, Answer(m.later), x);
    } else if m.ServerFlushes? {
      ServerSide.FlushFollows(d, y.server, m.k, x);
      var t := y.server.(port := FlushSome(y.server.port, m.k));
      assert y.toClient + (y.server.port.flight[..m.k] + ServerSide.Outgoing(d, t))
          == (y.toClient + y.server.port.flight[..m.k]) + ServerSide.Outgoing(d, t);
    } else if m.ServerReceives? {
      ServerSide.ReceiveFollows(d, y.server, x);
      assert x[0] == y.toServer[0] && x[1..] == y.toServer[1..] + ClientSide.Outgoing(d, y.client);
    } else {
      ServerSide.ResumeFollows(d, y.server, x);
    }
  }

  lemma MoveKeeps(d: Deal, y: System, m: Move)
    requires Inv(d, y) && Enabled(y, m)
    ensures Inv(d, After(y, m))
  {
    hide Inv, Enabled, ClientMoves, ServerMoves;
    if m.ClientRuns? || m.ClientFlushes? || m.ClientReceives? || m.ClientCalled? {
      ClientMoveKeeps(d, y, m);
    } else {
      ServerMoveKeeps(d, y, m);
    }
  }

  lemma {:induction false} RunKeeps(d: Deal, y: System, moves: seq<Move>)
    requires Inv(d, y) && RunEnabled(y, moves)
    ensures Inv(d, RunOf(y, moves))
    decreases |moves|
  {
    hide Inv, Enabled, ClientMoves, ServerMoves;
    if moves != [] {
      MoveKeeps(d, y, moves[0]);
      RunKeeps(d, After(y, moves[0]), moves[1..]);
    }
  }

  // ----- Nobody fails, nobody waits for ever -----

  /**
   In every run, whatever the order of flushes, arrivals and retried callbacks, every message that one side emits is
   accepted by the other: a side fails only when the server insists on a client certificate that is not there.
   */
  lemma NoRunFails(d: Deal, moves: seq<Move>)
    requires d.Consistent() && RunEnabled(Start(d), moves)
    ensures !d.CertificateMissing() ==> RunOf(Start(d), moves).NoneFailed()
    ensures d.CertificateMissing() ==> !RunOf(Start(d), moves).server.state.Done?
  {
    hide Start, RunOf;
    StartFollows(d);
    RunKeeps(d, Start(d), moves);
    FailureIsMissing(d, RunOf(Start(d), moves));
  }

  lemma FailureIsMissing(d: Deal, y: System)
    requires Inv(d, y)
    ensures !d.CertificateMissing() ==> y.NoneFailed()
    ensures d.CertificateMissing() ==> !y.server.state.Done?
  {
    hide ClientFrom, ServerFrom;
  }

  /** A move that brings the handshake forward. */
  function NextMove(y: System): Move {
    if y.client.port.wait.Ready? && !y.client.state.Done? then ClientRuns(false)
    else if y.client.port.wait.Flush? then ClientFlushes(|y.client.port.flight|)
    else if Paused(y.client.port) then ClientCalled
    else if y.server.port.wait.Ready? && !y.server.state.Done? then ServerRuns(false)
    else if y.server.port.wait.Flush? then ServerFlushes(|y.server.port.flight|)
    else if Paused(y.server.port) then ServerCalled
    else if Reading(y.client.port) && y.toClient != [] then ClientReceives
    else ServerReceives
  }

  /** The two sides never wait for each other with nothing under way. */
  lemma NotBothBlocked(d: Deal, y: System)
    requires Inv(d, y) && Reading(y.client.port) && Reading(y.server.port)
    ensures y.toServer != [] || y.toClient != []
  {
    hide ClientFrom, ServerFrom, ClientSide.Follows, ServerSide.Follows, ClientSide.Outgoing, ServerSide.Outgoing,
      ClientSide.Reads, ClientSide.Writes, ServerSide.Choosing, Deal.Resumed;
    var w, r := ClientSide.Writes(y.client), ClientSide.Reads(y.client);
    ClientSide.BlockedIsOwed(d, y.client, ForClient(d, y));
    ServerSide.BlockedIsOwed(d, y.server, ForServer(d, y));
    LastItems(d);
    ClientStage(d, 0);
    ClientShrinks(d, 1, w);
    if !d.Resumed() && r < 6 {
      ServerShrinks(d, r, 5);
      ServerStage(d, 5);
    }
    assert [] + ClientSide.Outgoing(d, y.client) == ClientFrom(d, w);
    assert [] + ServerSide.Outgoing(d, y.server) == ServerSide.Outgoing(d, y.server);
  }

  /** A side that has finished has nothing left to say and waits for nothing. */
  lemma DoneIsSilent(d: Deal, y: System)
    requires Inv(d, y)
    ensures y.client.state.Done? ==> ClientSide.Outgoing(d, y.client) == [] && y.client.port.wait.Ready?
    ensures y.server.state.Done? && !y.server.port.wait.Failed? ==>
      ServerSide.Outgoing(d, y.server) == [] && y.server.port.wait.Ready?
  {
    hide ClientFrom, ServerFrom;
    LastItems(d);
  }

  /** Until both sides are done, one of them can move. */
  lemma NoDeadlock(d: Deal, y: System)
    requires Inv(d, y) && y.NoneFailed() && !y.BothDone()
    ensures Enabled(y, NextMove(y))
  {
    hide ClientFrom, ServerFrom, ClientSide.Follows, ServerSide.Follows, ClientSide.Outgoing, ServerSide.Outgoing;
    DoneIsSilent(d, y);
    if Reading(y.client.port) {
      ClientSide.BlockedIsOwed(d, y.client, ForClient(d, y));
    }
    if Reading(y.server.port) {
      ServerSide.BlockedIsOwed(d, y.server, ForServer(d, y));
      if Reading(y.client.port) {
        NotBothBlocked(d, y);
      }
    }
  }

  // ----- Completion -----

  function RankLeft(y: System): int {
    TlsClient.LAST_RANK - TlsClient.Rank(y.client.state, y.client.facts.resumed) +
    TlsServer.LAST_RANK - TlsServer.Rank(y.server.state, y.server.facts.resumed)
  }

  function ItemsLeft(y: System): nat {
    2 * |y.client.port.flight| + 2 * |y.server.port.flight| + |y.toServer| + |y.toClient|
  }

  function WaitsLeft(w: Wait): nat {
    if w.ReadMessage? || w.ReadCcs? then 0 else if w.Ready? then 1 else 2
  }

  /** `t` is nearer to the end than `y`. */
  predicate Nearer(t: System, y: System) {
    || RankLeft(t) < RankLeft(y)
    || (RankLeft(t) == RankLeft(y) && ItemsLeft(t) < ItemsLeft(y))
    || (RankLeft(t) == RankLeft(y) && ItemsLeft(t) == ItemsLeft(y)
        && WaitsLeft(t.client.port.wait) + WaitsLeft(t.server.port.wait)
           < WaitsLeft(y.client.port.wait) + WaitsLeft(y.server.port.wait))
  }

  lemma NextMoveIsNearer(y: System)
    requires Enabled(y, NextMove(y)) && After(y, NextMove(y)).NoneFailed()
    ensures Nearer(After(y, NextMove(y)), y)
  {
    hide TlsClient.Step, TlsServer.Step, TlsClient.Rank, TlsServer.Rank;
    var m := NextMove(y);
    if m.ClientRuns? {
      TlsClient.StepClimbs(y.client, Accept);
    } else if m.ServerRuns? {
      TlsServer.StepClimbs(y.server, Accept);
    }
  }

  /** From every state that can be reached, some run brings both sides to the end. */
  lemma {:induction false} CanFinish(d: Deal, y: System) returns (moves: seq<Move>)
    requires Inv(d, y) && !d.CertificateMissing()
    ensures RunEnabled(y, moves) && RunOf(y, moves).BothDone()
    decreases RankLeft(y), ItemsLeft(y), WaitsLeft(y.client.port.wait) + WaitsLeft(y.server.port.wait)
  {
    hide Inv, Enabled, ClientMoves, ServerMoves, NextMove, RankLeft, ItemsLeft, WaitsLeft;
    if y.BothDone() {
      moves := [];
    } else {
      var m := NextMove(y);
      FailureIsMissing(d, y);
      NoDeadlock(d, y);
      MoveKeeps(d, y, m);
      FailureIsMissing(d, After(y, m));
      NextMoveIsNearer(y);
      RankLeftIsNatural(y);
      var rest := CanFinish(d, After(y, m));
      moves := [m] + rest;
      assert moves[1..] == rest;
    }
  }

  /** In no run do the two sides get stuck: some move is left until both are done, and the end stays within reach. */
  lemma NoRunIsStuck(d: Deal, moves: seq<Move>)
    requires d.Consistent() && !d.CertificateMissing() && RunEnabled(Start(d), moves)
    ensures var y := RunOf(Start(d), moves);
      && (!y.BothDone() ==> Enabled(y, NextMove(y)))
      && exists more :: RunEnabled(y, more) && RunOf(y, more).BothDone()
  {
    hide Start, Inv, RunOf, RunEnabled, Enabled, NextMove;
    var y := RunOf(Start(d), moves);
    StartFollows(d);
    RunKeeps(d, Start(d), moves);
    FailureIsMissing(d, y);
    if !y.BothDone() {
      NoDeadlock(d, y);
    }
    var more := CanFinish(d, y);
  }

  lemma RankLeftIsNatural(y: System)
    ensures RankLeft(y) >= 0
  {
  }

  /** Some run brings both sides to the end. */
  ghost predicate Completable(d: Deal) {
    exists moves :: RunEnabled(Start(d), moves) && RunOf(Start(d), moves).BothDone()
  }

  /** A handshake can be completed exactly when the server does not insist on a certificate that is not there. */
  lemma CompletesExactly(d: Deal)
    requires d.Consistent()
    ensures Completable(d) <==> !d.CertificateMissing()
  {
    hide Start, Inv, RunOf, RunEnabled;
    StartFollows(d);
    if !d.CertificateMissing() {
      var moves := CanFinish(d, Start(d));
    }
    forall moves | RunEnabled(Start(d), moves)
      ensures d.CertificateMissing() ==> !RunOf(Start(d), moves).BothDone()
    {
      NoRunFails(d, moves);
    }
  }

  // ----- At the end -----

  predicate LogsMatch(y: System) {
    TlsClient.LogMatches(y.client) && TlsServer.LogMatches(y.server)
  }

  lemma MoveKeepsLogs(y: System, m: Move)
    requires LogsMatch(y) && Enabled(y, m)
    ensures LogsMatch(After(y, m))
  {
    hide TlsClient.Step, TlsServer.Step, TlsClient.LogMatches, TlsServer.LogMatches, FlushSome, Receive, Resume;
    match m
    case ClientRuns(later) => TlsClient.MoveKeepsLog(y.client, TlsHandshake.Run(Answer(later)));
    case ClientFlushes(k) => TlsClient.MoveKeepsLog(y.client, TlsHandshake.Flushed(k));
    case ClientReceives => TlsClient.MoveKeepsLog(y.client, TlsHandshake.Arrives(y.toClient[0]));
    case ClientCalled => TlsClient.MoveKeepsLog(y.client, TlsHandshake.Called);
    case ServerRuns(later) => TlsServer.MoveKeepsLog(y.server, TlsHandshake.Run(Answer(later)));
    case ServerFlushes(k) => TlsServer.MoveKeepsLog(y.server, TlsHandshake.Flushed(k));
    case ServerReceives => TlsServer.MoveKeepsLog(y.server, TlsHandshake.Arrives(y.toServer[0]));
    case ServerCalled => TlsServer.MoveKeepsLog(y.server, TlsHandshake.Called);
  }

  lemma {:induction false} RunKeepsLogs(y: System, moves: seq<Move>)
    requires LogsMatch(y) && RunEnabled(y, moves)
    ensures LogsMatch(RunOf(y, moves))
    decreases |moves|
  {
    hide LogsMatch, Enabled, ClientMoves, ServerMoves;
    if moves != [] {
      MoveKeepsLogs(y, moves[0]);
      RunKeepsLogs(After(y, moves[0]), moves[1..]);
    }
  }

  /**
   When both sides are done, nothing is left under way, they agree on what was negotiated, and each has sent one
   Finished under its new key and verified the other's.
   */
  lemma EndsInAgreement(d: Deal, moves: seq<Move>)
    requires d.Consistent() && RunEnabled(Start(d), moves) && RunOf(Start(d), moves).BothDone()
    ensures var y := RunOf(Start(d), moves);
      && y.toServer == [] && y.toClient == [] && y.client.port.flight == [] && y.server.port.flight == []
      && y.client.facts.resumed == y.server.facts.resumed == d.Resumed()
      && y.client.facts.hello == d.Agreed()
      && (if d.Resumed() then y.client.port.log == Wrote(Verified(Nothing)) &&
        y.server.port.log == Verified(Wrote(Nothing))
          else y.client.port.log == Verified(Wrote(Nothing)) && y.server.port.log == Wrote(Verified(Nothing)))
  {
    hide Start, RunOf, Inv, LogsMatch;
    var y := RunOf(Start(d), moves);
    StartFollows(d);
    RunKeeps(d, Start(d), moves);
    StartMatches(d);
    RunKeepsLogs(Start(d), moves);
    FailureIsMissing(d, y);
    DoneAgrees(d, y);
  }

  lemma StartMatches(d: Deal)
    ensures LogsMatch(Start(d))
  {
  }

  lemma DoneAgrees(d: Deal, y: System)
    requires Inv(d, y) && LogsMatch(y) && y.BothDone() && y.NoneFailed()
    ensures y.toServer == [] && y.toClient == [] && y.client.port.flight == [] && y.server.port.flight == []
    ensures y.client.facts.resumed == y.server.facts.resumed == d.Resumed()
    ensures y.client.facts.hello == d.Agreed()
    ensures if d.Resumed() then y.client.port.log == Wrote(Verified(Nothing)) &&
      y.server.port.log == Verified(Wrote(Nothing))
      else y.client.port.log == Verified(Wrote(Nothing)) && y.server.port.log == Wrote(Verified(Nothing))
  {
    hide ClientFrom, ServerFrom, Deal.Resumed, Deal.Agreed;
    LastItems(d);
  }
}
