/** A server whose peer follows the script follows it too, and never fails. */
module TlsServerFollows {
  import opened Wrappers
  import opened TlsHandshake
  import opened TlsServer
  import opened TlsScript

  /** Before the parameters are selected. */
  predicate Choosing(state: State) {
    state.StartAccept? || state.ReadClientHello? || state.SelectCertificate? || state.SelectParameters?
  }

  /** While the first flight of a full handshake is written. */
  predicate Certifying(state: State) {
    state.SendServerCertificate? || state.SendServerKeyExchange? || state.SendServerHelloDone?
  }

  /** Between the client's Certificate and its ChangeCipherSpec. */
  predicate Exchanging(state: State) {
    state.VerifyClientCertificate? || state.ReadClientKeyExchange? || state.ReadClientCertificateVerify?
  }

  /** While the end of the client's flight is read. */
  predicate Closing(state: State) {
    state.ReadChangeCipherSpec? || state.ProcessCcs? || state.ReadNextProto? || state.ReadChannelId? ||
    state.ReadClientFinished?
  }

  predicate Over(state: State) { state.FinishServerHandshake? || state.Done? }

  /** The stage of the client's script that this server reads next. */
  function Reads(s: Server): nat {
    if Choosing(s.state) then 0
    else if s.state.VerifyClientCertificate? || s.state.ReadClientKeyExchange? then 2
    else if s.state.ReadClientCertificateVerify? then 3
    else if s.state.ReadChangeCipherSpec? then 4
    else if s.state.ProcessCcs? then if s.port.wait.ReadCcs? then 4 else 5
    else if s.state.ReadNextProto? then 5
    else if s.state.ReadChannelId? then 6
    else if s.state.ReadClientFinished? then 7
    else if s.state.SendServerFinished? then if s.facts.resumed then 4 else CLIENT_END
    else if Over(s.state) then CLIENT_END
    else 1
  }

  /** The stage of its own script that this server writes next. */
  function Writes(s: Server): nat {
    if Choosing(s.state) || s.state.SendServerHello? then 0
    else if s.state.SendServerCertificate? then 1
    else if s.state.SendServerKeyExchange? then 3
    else if s.state.SendServerHelloDone? then 4
    else if Over(s.state) then SERVER_END
    else if Closing(s.state) then if s.facts.resumed then SERVER_END else 6
    else 6
  }

  /** What this server has not handed to the transport yet. */
  function Outgoing(d: Deal, s: Server): seq<Item> {
    s.port.flight + ServerFrom(d, Writes(s))
  }

  /** What the server has settled is what the options say. */
  predicate Knows(d: Deal, f: Facts, state: State) {
    && (if Choosing(state) then !f.resumed
        else f.resumed == d.Resumed() && f.ticketExpected == d.Ticket() && f.certRequest == d.CertRequest())
    && f.channelId == (if Choosing(state) || state.SendServerHello? then d.server.channelIdOffered else d.ChannelId())
    && (state.SendServerKeyExchange? ==> f.keyExchangeParams == d.KeyExchangeParams())
    && (if Exchanging(state) then f.peerCert == (d.CertRequest() && d.client.hasCert)
        else if Closing(state) || state.SendServerFinished? || Over(state) then true
        else !f.peerCert)
    && (Certifying(state) || state.ReadClientCertificate? || Exchanging(state) ==> !d.Resumed())
    && (Exchanging(state) || Closing(state) || state.SendServerFinished? || Over(state) ==> !d.CertificateMissing())
  }

  /** Where no message is read. */
  predicate Busy(state: State) {
    Certifying(state) || state.SendServerHello? || state.SendServerFinished? || state.ProcessCcs? || Over(state)
  }

  /** Where it waits, there is something to wait for; and it never waits for the peer on an unsent flight. */
  predicate Waits(d: Deal, s: Server) {
    && (s.port.wait.ReadMessage? ==> s.port.buffer.None? && MessageDue(ClientFrom(d, Reads(s))))
    && (s.port.wait.ReadCcs? ==> s.state.ProcessCcs?)
    && (s.port.buffer.Some? ==> !s.port.buffer.value.Ccs? && !s.state.ProcessCcs?)
    && (s.port.wait.Flush? || Certifying(s.state) || s.state.SendServerFinished? || s.port.flight == [])
    && (Busy(s.state) ==> !s.port.wait.ReadMessage?)
    && (s.state.Done? ==> s.port.wait.Ready?)
    && !s.port.wait.EarlyReturn?
  }

  predicate OnScript(d: Deal, s: Server, x: seq<Item>) {
    Knows(d, s.facts, s.state) && Waits(d, s) && Expects(s.port.buffer, x, ClientFrom(d, Reads(s)))
  }

  /** With `x` still to come, the server is on the script; it has failed only if the certificate it needs is missing. */
  predicate Follows(d: Deal, s: Server, x: seq<Item>) {
    && s.cfg == d.server && d.Consistent()
    && (if s.port.wait.Failed? then d.CertificateMissing() && s.state.ReadClientCertificate? else OnScript(d, s, x))
  }

  /** From `s` to `t` the server stays on the script, and what it says in all stays the same. */
  predicate Kept(d: Deal, s: Server, t: Server, x: seq<Item>) {
    Follows(d, t, x) && Outgoing(d, t) == Outgoing(d, s)
  }

  lemma LastFlight(d: Deal, flight: seq<Item>)
    ensures flight + ServerFrom(d, 6)
      == (flight + ((if d.Ticket() then [NewSessionTicket(d.server.emptyTicket)] else []) + [Ccs]) + [Finished]) +
        ServerFrom(d, SERVER_END)
  {
    hide ServerFrom;
    ServerStage(d, 6); ServerStage(d, 7); ServerStage(d, 8);
    LastItems(d);
  }

  lemma StartAcceptFollows(d: Deal, s: Server, v: Verdict, x: seq<Item>)
    requires Follows(d, s, x) && s.port.wait.Ready? && !v.Reject? && s.state.StartAccept?
    ensures Kept(d, s, DoStartAccept(s), x)
  {
    hide ClientFrom, ServerFrom, Expects, MessageDue, Deal.Resumed, Deal.CertAuth, Deal.Ticket, Deal.ChannelId,
      Deal.CertRequest, Deal.KeyExchangeParams, Deal.Agreed, Deal.CertificateMissing;
  }

  lemma ReadClientHelloFollows(d: Deal, s: Server, v: Verdict, x: seq<Item>)
    requires Follows(d, s, x) && s.port.wait.Ready? && !v.Reject? && s.state.ReadClientHello?
    ensures Kept(d, s, DoReadClientHello(s, v), x)
  {
    hide ClientFrom, ServerFrom, Expects, MessageDue, Deal.Resumed, Deal.CertAuth, Deal.Ticket, Deal.ChannelId,
      Deal.CertRequest, Deal.KeyExchangeParams, Deal.Agreed, Deal.CertificateMissing;
    ClientNext(d, 0, s.port.buffer, x);
  }

  lemma SelectCertificateFollows(d: Deal, s: Server, v: Verdict, x: seq<Item>)
    requires Follows(d, s, x) && s.port.wait.Ready? && !v.Reject? && s.state.SelectCertificate?
    ensures Kept(d, s, DoSelectCertificate(s, v), x)
  {
    hide ClientFrom, ServerFrom, Expects, MessageDue, Deal.Resumed, Deal.CertAuth, Deal.Ticket, Deal.ChannelId,
      Deal.CertRequest, Deal.KeyExchangeParams, Deal.Agreed, Deal.CertificateMissing;
    ClientNext(d, 0, s.port.buffer, x);
  }

  lemma SelectParametersFollows(d: Deal, s: Server, v: Verdict, x: seq<Item>)
    requires Follows(d, s, x) && s.port.wait.Ready? && !v.Reject? && s.state.SelectParameters?
    ensures Kept(d, s, DoSelectParameters(s, v), x)
  {
    hide ClientFrom, ServerFrom, Expects, MessageDue, Deal.ChannelId, Deal.KeyExchangeParams, Deal.Agreed,
      Deal.CertificateMissing;
    ClientNext(d, 0, s.port.buffer, x);
  }

  /** The ServerHello says what the options come to; a resumed handshake asks for no certificate. */
  lemma HelloIsAgreed(d: Deal, s: Server)
    requires s.cfg == d.server && s.state.SendServerHello? && Knows(d, s.facts, s.state)
    ensures var valid := s.facts.channelId && s.cfg.kx.Ecdhe? && (s.facts.resumed ==> s.cfg.sessionHasHashes);
      valid == d.ChannelId() && HelloOf(s.cfg, s.facts.(channelId := valid)) == d.Agreed()
    ensures d.Resumed() ==> !d.CertificateMissing()
  {
  }

  /** The ServerHello is what the script says first. */
  lemma ServerHelloWritten(d: Deal, s: Server, v: Verdict, x: seq<Item>)
    requires Follows(d, s, x) && s.port.wait.Ready? && !v.Reject? && s.state.SendServerHello?
    ensures Outgoing(d, DoSendServerHello(s, v)) == Outgoing(d, s)
  {
    hide ClientFrom, ServerFrom, Expects, MessageDue, HelloOf, Deal.Resumed, Deal.CertAuth, Deal.Ticket,
      Deal.ChannelId, Deal.CertRequest, Deal.KeyExchangeParams, Deal.Agreed, Deal.CertificateMissing, Deal.Consistent;
    HelloIsAgreed(d, s);
    ServerStage(d, 0);
    assert s.port.flight == [];
    if d.Resumed() {
      ResumedSkips(d);
    }
  }

  lemma SendServerHelloFollows(d: Deal, s: Server, v: Verdict, x: seq<Item>)
    requires Follows(d, s, x) && s.port.wait.Ready? && !v.Reject? && s.state.SendServerHello?
    ensures Kept(d, s, DoSendServerHello(s, v), x)
  {
    hide Outgoing, ClientFrom, ServerFrom, Expects, MessageDue, HelloOf, Deal.Resumed, Deal.CertAuth,
      Deal.Ticket, Deal.ChannelId, Deal.CertRequest, Deal.KeyExchangeParams, Deal.Agreed, Deal.CertificateMissing,
      Deal.Consistent;
    ServerHelloWritten(d, s, v, x);
    HelloIsAgreed(d, s);
    if d.Resumed() {
      ResumedSkips(d);
    }
  }

  lemma SendServerCertificateFollows(d: Deal, s: Server, v: Verdict, x: seq<Item>)
    requires Follows(d, s, x) && s.port.wait.Ready? && !v.Reject? && s.state.SendServerCertificate?
    ensures Kept(d, s, DoSendServerCertificate(s, v), x)
  {
    hide ClientFrom, ServerFrom, Expects, MessageDue, Deal.Resumed, Deal.Ticket, Deal.ChannelId, Deal.CertRequest,
      Deal.Agreed, Deal.CertificateMissing, Deal.Consistent;
    ServerStage(d, 1);
    ServerStage(d, 2);
    Written(s.port.flight, ServerItem(d, 1), ServerItem(d, 2), ServerFrom(d, 3));
  }

  lemma SendServerKeyExchangeFollows(d: Deal, s: Server, v: Verdict, x: seq<Item>)
    requires Follows(d, s, x) && s.port.wait.Ready? && !v.Reject? && s.state.SendServerKeyExchange?
    ensures Kept(d, s, DoSendServerKeyExchange(s, v), x)
  {
    hide ClientFrom, ServerFrom, Expects, MessageDue, Deal.Resumed, Deal.CertAuth, Deal.Ticket, Deal.ChannelId,
      Deal.CertRequest, Deal.KeyExchangeParams, Deal.Agreed, Deal.CertificateMissing;
    ServerStage(d, 3);
    Written(s.port.flight, [], ServerItem(d, 3), ServerFrom(d, 4));
  }

  lemma SendServerHelloDoneFollows(d: Deal, s: Server, v: Verdict, x: seq<Item>)
    requires Follows(d, s, x) && s.port.wait.Ready? && !v.Reject? && s.state.SendServerHelloDone?
    ensures Kept(d, s, DoSendServerHelloDone(s, v), x)
  {
    hide ClientFrom, ServerFrom, Expects, MessageDue, Deal.Resumed, Deal.CertAuth, Deal.Ticket, Deal.ChannelId,
      Deal.CertRequest, Deal.KeyExchangeParams, Deal.Agreed, Deal.CertificateMissing;
    ServerStage(d, 4);
    ServerStage(d, 5);
    Written(s.port.flight, ServerItem(d, 4), ServerItem(d, 5), ServerFrom(d, 6));
  }

  lemma ReadClientCertificateFollows(d: Deal, s: Server, v: Verdict, x: seq<Item>)
    requires Follows(d, s, x) && s.port.wait.Ready? && !v.Reject? && s.state.ReadClientCertificate?
    ensures Kept(d, s, DoReadClientCertificate(s, v), x)
  {
    hide ClientFrom, ServerFrom, Expects, MessageDue, Deal.Resumed, Deal.CertAuth, Deal.Ticket, Deal.ChannelId,
      Deal.CertRequest, Deal.KeyExchangeParams, Deal.Agreed;
    ClientNext(d, 1, s.port.buffer, x);
  }

  lemma VerifyClientCertificateFollows(d: Deal, s: Server, v: Verdict, x: seq<Item>)
    requires Follows(d, s, x) && s.port.wait.Ready? && !v.Reject? && s.state.VerifyClientCertificate?
    ensures Kept(d, s, DoVerifyClientCertificate(s, v), x)
  {
    hide ClientFrom, ServerFrom, Expects, MessageDue, Deal.Resumed, Deal.CertAuth, Deal.Ticket, Deal.ChannelId,
      Deal.CertRequest, Deal.KeyExchangeParams, Deal.Agreed, Deal.CertificateMissing;
  }

  lemma ReadClientKeyExchangeFollows(d: Deal, s: Server, v: Verdict, x: seq<Item>)
    requires Follows(d, s, x) && s.port.wait.Ready? && !v.Reject? && s.state.ReadClientKeyExchange?
    ensures Kept(d, s, DoReadClientKeyExchange(s, v), x)
  {
    hide ClientFrom, ServerFrom, Expects, MessageDue, Deal.Resumed, Deal.CertAuth, Deal.Ticket, Deal.ChannelId,
      Deal.CertRequest, Deal.KeyExchangeParams, Deal.Agreed, Deal.CertificateMissing;
    ClientNext(d, 2, s.port.buffer, x);
  }

  lemma ReadClientCertificateVerifyFollows(d: Deal, s: Server, v: Verdict, x: seq<Item>)
    requires Follows(d, s, x) && s.port.wait.Ready? && !v.Reject? && s.state.ReadClientCertificateVerify?
    ensures Kept(d, s, DoReadClientCertificateVerify(s, v), x)
  {
    hide ClientFrom, ServerFrom, Expects, MessageDue, Deal.Resumed, Deal.CertAuth, Deal.Ticket, Deal.ChannelId,
      Deal.CertRequest, Deal.KeyExchangeParams, Deal.Agreed, Deal.CertificateMissing;
    ClientNext(d, 3, s.port.buffer, x);
  }

  lemma ReadChangeCipherSpecFollows(d: Deal, s: Server, v: Verdict, x: seq<Item>)
    requires Follows(d, s, x) && s.port.wait.Ready? && !v.Reject? && s.state.ReadChangeCipherSpec?
    ensures Kept(d, s, DoReadChangeCipherSpec(s), x)
  {
    hide ClientFrom, ServerFrom, Expects, MessageDue, Deal.Resumed, Deal.CertAuth, Deal.Ticket, Deal.ChannelId,
      Deal.CertRequest, Deal.KeyExchangeParams, Deal.Agreed, Deal.CertificateMissing;
    ClientNext(d, 4, s.port.buffer, x);
  }

  lemma ProcessCcsFollows(d: Deal, s: Server, v: Verdict, x: seq<Item>)
    requires Follows(d, s, x) && s.port.wait.Ready? && !v.Reject? && s.state.ProcessCcs?
    ensures Kept(d, s, DoProcessCcs(s, v), x)
  {
    hide ClientFrom, ServerFrom, Expects, MessageDue, Deal.Resumed, Deal.CertAuth, Deal.Ticket, Deal.ChannelId,
      Deal.CertRequest, Deal.KeyExchangeParams, Deal.Agreed, Deal.CertificateMissing;
  }

  lemma ReadNextProtoFollows(d: Deal, s: Server, v: Verdict, x: seq<Item>)
    requires Follows(d, s, x) && s.port.wait.Ready? && !v.Reject? && s.state.ReadNextProto?
    ensures Kept(d, s, DoReadNextProto(s, v), x)
  {
    hide ClientFrom, ServerFrom, Expects, MessageDue, Deal.Resumed, Deal.CertAuth, Deal.Ticket, Deal.ChannelId,
      Deal.CertRequest, Deal.KeyExchangeParams, Deal.Agreed, Deal.CertificateMissing;
    ClientNext(d, 5, s.port.buffer, x);
  }

  lemma ReadChannelIdFollows(d: Deal, s: Server, v: Verdict, x: seq<Item>)
    requires Follows(d, s, x) && s.port.wait.Ready? && !v.Reject? && s.state.ReadChannelId?
    ensures Kept(d, s, DoReadChannelId(s, v), x)
  {
    hide ClientFrom, ServerFrom, Expects, MessageDue, Deal.Resumed, Deal.CertAuth, Deal.Ticket, Deal.ChannelId,
      Deal.CertRequest, Deal.KeyExchangeParams, Deal.Agreed, Deal.CertificateMissing;
    ClientNext(d, 6, s.port.buffer, x);
  }

  lemma ReadClientFinishedFollows(d: Deal, s: Server, v: Verdict, x: seq<Item>)
    requires Follows(d, s, x) && s.port.wait.Ready? && !v.Reject? && s.state.ReadClientFinished?
    ensures Kept(d, s, DoReadClientFinished(s, v), x)
  {
    hide ClientFrom, ServerFrom, Expects, MessageDue, Deal.Resumed, Deal.CertAuth, Deal.Ticket, Deal.ChannelId,
      Deal.CertRequest, Deal.KeyExchangeParams, Deal.Agreed, Deal.CertificateMissing;
    ClientNext(d, 7, s.port.buffer, x);
  }

  lemma SendServerFinishedFollows(d: Deal, s: Server, v: Verdict, x: seq<Item>)
    requires Follows(d, s, x) && s.port.wait.Ready? && !v.Reject? && s.state.SendServerFinished?
    ensures Kept(d, s, DoSendServerFinished(s, v), x)
  {
    hide ClientFrom, ServerFrom, Expects, MessageDue, ClientItem, ServerItem, MessageDue, Deal.Resumed, Deal.CertAuth,
      Deal.Ticket, Deal.ChannelId, Deal.CertRequest, Deal.KeyExchangeParams, Deal.Agreed, Deal.CertificateMissing;
    LastFlight(d, s.port.flight);
  }

  lemma FinishServerHandshakeFollows(d: Deal, s: Server, v: Verdict, x: seq<Item>)
    requires Follows(d, s, x) && s.port.wait.Ready? && !v.Reject? && s.state.FinishServerHandshake?
    ensures Kept(d, s, DoFinishServerHandshake(s), x)
  {
    hide ClientFrom, ServerFrom, Expects, MessageDue, Deal.Resumed, Deal.CertAuth, Deal.Ticket, Deal.ChannelId,
      Deal.CertRequest, Deal.KeyExchangeParams, Deal.Agreed, Deal.CertificateMissing;
  }

  lemma StartFollows(d: Deal)
    requires d.Consistent()
    ensures Follows(d, Start(d.server), ClientFrom(d, 0)) && Outgoing(d, Start(d.server)) == ServerFrom(d, 0)
  {
    hide ClientFrom, ServerFrom, Deal.Consistent;
    assert Buffered(None) + ClientFrom(d, 0) == ClientFrom(d, 0);
    assert [] + ServerFrom(d, 0) == ServerFrom(d, 0);
  }

  /** One round of the loop keeps the server on the script, unless a check fails. */
  lemma StepFollows(d: Deal, s: Server, v: Verdict, x: seq<Item>)
    requires Follows(d, s, x) && s.port.wait.Ready? && !s.state.Done? && !v.Reject?
    ensures Kept(d, s, Step(s, v), x)
  {
    hide Follows, Kept, DoStartAccept, DoReadClientHello, DoSelectCertificate, DoSelectParameters, DoSendServerHello,
      DoSendServerCertificate, DoSendServerKeyExchange, DoSendServerHelloDone, DoReadClientCertificate,
      DoVerifyClientCertificate, DoReadClientKeyExchange, DoReadClientCertificateVerify, DoReadChangeCipherSpec,
      DoProcessCcs, DoReadNextProto, DoReadChannelId, DoReadClientFinished, DoSendServerFinished,
      DoFinishServerHandshake;
    if s.state.StartAccept? {
      StartAcceptFollows(d, s, v, x);
    } else if s.state.ReadClientHello? {
      ReadClientHelloFollows(d, s, v, x);
    } else if s.state.SelectCertificate? {
      SelectCertificateFollows(d, s, v, x);
    } else if s.state.SelectParameters? {
      SelectParametersFollows(d, s, v, x);
    } else if s.state.SendServerHello? {
      SendServerHelloFollows(d, s, v, x);
    } else if s.state.SendServerCertificate? {
      SendServerCertificateFollows(d, s, v, x);
    } else if s.state.SendServerKeyExchange? {
      SendServerKeyExchangeFollows(d, s, v, x);
    } else if s.state.SendServerHelloDone? {
      SendServerHelloDoneFollows(d, s, v, x);
    } else if s.state.ReadClientCertificate? {
      ReadClientCertificateFollows(d, s, v, x);
    } else if s.state.VerifyClientCertificate? {
      VerifyClientCertificateFollows(d, s, v, x);
    } else if s.state.ReadClientKeyExchange? {
      ReadClientKeyExchangeFollows(d, s, v, x);
    } else if s.state.ReadClientCertificateVerify? {
      ReadClientCertificateVerifyFollows(d, s, v, x);
    } else if s.state.ReadChangeCipherSpec? {
      ReadChangeCipherSpecFollows(d, s, v, x);
    } else if s.state.ProcessCcs? {
      ProcessCcsFollows(d, s, v, x);
    } else if s.state.ReadNextProto? {
      ReadNextProtoFollows(d, s, v, x);
    } else if s.state.ReadChannelId? {
      ReadChannelIdFollows(d, s, v, x);
    } else if s.state.ReadClientFinished? {
      ReadClientFinishedFollows(d, s, v, x);
    } else if s.state.SendServerFinished? {
      SendServerFinishedFollows(d, s, v, x);
    } else {
      FinishServerHandshakeFollows(d, s, v, x);
    }
  }

  /** Whatever part of the flight the transport takes, what it took and what is left is what there was. */
  lemma FlushFollows(d: Deal, s: Server, k: nat, x: seq<Item>)
    requires Follows(d, s, x) && s.port.wait.Flush? && k <= |s.port.flight|
    ensures var t := s.(port := FlushSome(s.port, k));
      Follows(d, t, x) && Outgoing(d, s) == s.port.flight[..k] + Outgoing(d, t)
  {
    hide ClientFrom, ServerFrom, Knows;
    Cut(s.port.flight, k, ServerFrom(d, Writes(s)));
  }

  /** What the peer says next is what this side waits for. */
  lemma ReceiveFollows(d: Deal, s: Server, x: seq<Item>)
    requires Follows(d, s, x) && (s.port.wait.ReadMessage? || s.port.wait.ReadCcs?) && |x| > 0
    ensures var t := s.(port := Receive(s.port, x[0])); Kept(d, s, t, x[1..])
  {
    hide ClientFrom, ServerFrom, Knows;
    assert Buffered(None) + x == x;
    assert Buffered(Some(x[0])) + x[1..] == x;
    ClientStage(d, 4);
    assert Buffered(None) + x[1..] == x[1..];
    assert [Ccs] + ClientFrom(d, 5) == x && s.port.wait.ReadCcs? ==> x[1..] == ClientFrom(d, 5);
  }

  lemma ResumeFollows(d: Deal, s: Server, x: seq<Item>)
    requires Follows(d, s, x) && (s.port.wait.Pending? || s.port.wait.EarlyReturn?)
    ensures Kept(d, s, s.(port := Resume(s.port)), x)
  {
    hide ClientFrom, ServerFrom, Knows;
  }

  /** A server that waits for the peer has sent all it had, and something is still to come. */
  lemma BlockedIsOwed(d: Deal, s: Server, x: seq<Item>)
    requires Follows(d, s, x) && (s.port.wait.ReadMessage? || s.port.wait.ReadCcs?)
    ensures |x| > 0 && s.port.flight == []
    ensures Choosing(s.state) ==> x == ClientFrom(d, 0)
    ensures !Choosing(s.state) ==> Outgoing(d, s) == ServerFrom(d, if d.Resumed() then SERVER_END else 6)
  {
    hide ClientFrom, ServerFrom;
    assert Buffered(None) + x == x;
    ClientStage(d, 4);
  }
}
