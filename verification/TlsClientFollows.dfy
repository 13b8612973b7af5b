/** A client whose peer follows the script follows it too, and never fails. */
module TlsClientFollows {
  import opened Wrappers
  import opened TlsHandshake
  import opened TlsClient
  import opened TlsScript

  /** Before the ServerHello is read. */
  predicate Opening(state: State) {
    state.StartConnect? || state.EnterEarlyData? || state.ReadServerHello?
  }

  /** While the rest of the server's first flight is read. */
  predicate Learning(state: State) {
    state.ReadServerCertificate? || state.ReadCertificateStatus? || state.VerifyServerCertificate? ||
    state.ReadServerKeyExchange? || state.ReadCertificateRequest?
  }

  /** While the client's answer is written. */
  predicate Answering(state: State) {
    state.SendClientCertificate? || state.SendClientKeyExchange? || state.SendClientCertificateVerify?
  }

  /** While the end of the server's part is read. */
  predicate Closing(state: State) {
    state.ReadSessionTicket? || state.ProcessCcs? || state.ReadServerFinished?
  }

  predicate Over(state: State) { state.FinishClientHandshake? || state.Done? }

  /** The stage of the server's script that this client reads next. */
  function Reads(c: Client): nat {
    if Opening(c.state) then 0
    else if c.state.ReadServerCertificate? then 1
    else if c.state.ReadCertificateStatus? then 2
    else if c.state.VerifyServerCertificate? || c.state.ReadServerKeyExchange? then 3
    else if c.state.ReadCertificateRequest? then 4
    else if c.state.ReadServerHelloDone? then 5
    else if c.state.ProcessCcs? then if c.port.wait.ReadCcs? then 7 else 8
    else if c.state.ReadServerFinished? then 8
    else if c.state.SendClientFinished? || c.state.FinishFlight? then if c.facts.resumed then SERVER_END else 6
    else if Over(c.state) then SERVER_END
    else 6
  }

  /** The stage of its own script that this client writes next. */
  function Writes(c: Client): nat {
    if c.state.StartConnect? then 0
    else if c.state.SendClientKeyExchange? then 2
    else if c.state.SendClientCertificateVerify? then 3
    else if c.state.SendClientFinished? then 4
    else if c.state.FinishFlight? || Over(c.state) then CLIENT_END
    else if Closing(c.state) then if c.facts.resumed then 4 else CLIENT_END
    else 1
  }

  /** What this client has not handed to the transport yet. */
  function Outgoing(d: Deal, c: Client): seq<Item> {
    c.port.flight + ClientFrom(d, Writes(c))
  }

  /** What the client has settled is what the options say. */
  predicate Knows(d: Deal, f: Facts, state: State) {
    && (if Opening(state) then !f.resumed else f.resumed == d.Resumed() && f.hello == d.Agreed())
    && (Learning(state) || state.ReadServerHelloDone? || Answering(state) ==> !d.Resumed())
    && (Opening(state) || Learning(state) ==> !f.certRequest)
    && (state.ReadServerHelloDone? || Answering(state) ==> f.certRequest == d.CertRequest())
    && (Learning(state) || state.ReadServerHelloDone? || Answering(state) || state.ReadSessionTicket?
        ==> f.ticketExpected == d.Ticket())
    && ((state.SendClientFinished? || state.FinishFlight?) && !f.resumed ==> f.ticketExpected == d.Ticket())
  }

  predicate Sending(state: State) { Answering(state) || state.SendClientFinished? }

  /** Where no message is read. */
  predicate Busy(state: State) {
    Sending(state) || state.StartConnect? || state.EnterEarlyData? || state.FinishFlight? || state.ProcessCcs? ||
    Over(state)
  }

  /** Where it waits, there is something to wait for; and it never waits for the peer on an unsent flight. */
  predicate Waits(d: Deal, c: Client) {
    && (c.port.wait.ReadMessage? ==> c.port.buffer.None? && MessageDue(ServerFrom(d, Reads(c))))
    && (c.port.wait.ReadCcs? ==> c.state.ProcessCcs?)
    && (c.port.buffer.Some? ==> !c.port.buffer.value.Ccs? && !c.state.ProcessCcs?)
    && (c.port.wait.Flush? || Sending(c.state) || c.port.flight == [])
    && (Busy(c.state) ==> !c.port.wait.ReadMessage?)
    && (c.state.Done? ==> c.port.wait.Ready?)
  }

  predicate OnScript(d: Deal, c: Client, x: seq<Item>) {
    Knows(d, c.facts, c.state) && Waits(d, c) && Expects(c.port.buffer, x, ServerFrom(d, Reads(c)))
  }

  /** With `x` still to come, the client is on the script. */
  predicate Follows(d: Deal, c: Client, x: seq<Item>) {
    c.cfg == d.client && d.Consistent() && !c.port.wait.Failed? && OnScript(d, c, x)
  }

  /** From `c` to `t` the client stays on the script, and what it says in all stays the same. */
  predicate Kept(d: Deal, c: Client, t: Client, x: seq<Item>) {
    Follows(d, t, x) && Outgoing(d, t) == Outgoing(d, c)
  }

  lemma LastFlight(d: Deal, flight: seq<Item>)
    ensures flight + ClientFrom(d, 4) == (flight + [Ccs] + (ClientItem(d, 5) + ClientItem(d, 6) + [Finished])) +
      ClientFrom(d, CLIENT_END)
  {
    hide ClientFrom, ClientItem;
    ClientStage(d, 4); ClientStage(d, 5); ClientStage(d, 6); ClientStage(d, 7);
    LastItems(d);
  }

  lemma StartConnectFollows(d: Deal, c: Client, v: Verdict, x: seq<Item>)
    requires Follows(d, c, x) && c.port.wait.Ready? && !v.Reject? && c.state.StartConnect?
    ensures Kept(d, c, DoStartConnect(c, v), x)
  {
    hide ClientFrom, ServerFrom, Expects, MessageDue, Deal.Resumed, Deal.CertAuth, Deal.Ticket, Deal.ChannelId,
      Deal.CertRequest, Deal.KeyExchangeParams, Deal.Agreed, Deal.CertificateMissing;
    ClientStage(d, 0);
    Written([], [], ClientItem(d, 0), ClientFrom(d, 1));
  }

  lemma EnterEarlyDataFollows(d: Deal, c: Client, v: Verdict, x: seq<Item>)
    requires Follows(d, c, x) && c.port.wait.Ready? && !v.Reject? && c.state.EnterEarlyData?
    ensures Kept(d, c, DoEnterEarlyData(c), x)
  {
    hide ClientFrom, ServerFrom, Expects, MessageDue, Deal.Resumed, Deal.CertAuth, Deal.Ticket, Deal.ChannelId,
      Deal.CertRequest, Deal.KeyExchangeParams, Deal.Agreed, Deal.CertificateMissing;
  }

  lemma ReadServerHelloFollows(d: Deal, c: Client, v: Verdict, x: seq<Item>)
    requires Follows(d, c, x) && c.port.wait.Ready? && !v.Reject? && c.state.ReadServerHello?
    ensures Kept(d, c, DoReadServerHello(c, v), x)
  {
    hide ClientFrom, ServerFrom, Expects, MessageDue, Deal.CertAuth, Deal.Ticket, Deal.ChannelId, Deal.CertRequest,
      Deal.KeyExchangeParams, Deal.CertificateMissing;
    ServerNext(d, 0, c.port.buffer, x);
    if d.Resumed() {
      ResumedSkips(d);
    }
  }

  lemma ReadServerCertificateFollows(d: Deal, c: Client, v: Verdict, x: seq<Item>)
    requires Follows(d, c, x) && c.port.wait.Ready? && !v.Reject? && c.state.ReadServerCertificate?
    ensures Kept(d, c, DoReadServerCertificate(c, v), x)
  {
    hide ClientFrom, ServerFrom, Expects, MessageDue, Deal.Resumed, Deal.Ticket, Deal.ChannelId, Deal.CertRequest,
      Deal.KeyExchangeParams, Deal.CertificateMissing;
    ServerNext(d, 1, c.port.buffer, x);
  }

  lemma ReadCertificateStatusFollows(d: Deal, c: Client, v: Verdict, x: seq<Item>)
    requires Follows(d, c, x) && c.port.wait.Ready? && !v.Reject? && c.state.ReadCertificateStatus?
    ensures Kept(d, c, DoReadCertificateStatus(c, v), x)
  {
    hide ClientFrom, ServerFrom, Expects, MessageDue, Deal.Resumed, Deal.Ticket, Deal.ChannelId, Deal.CertRequest,
      Deal.KeyExchangeParams, Deal.CertificateMissing;
    StatusNext(d, c.port.buffer, x);
  }

  lemma VerifyServerCertificateFollows(d: Deal, c: Client, v: Verdict, x: seq<Item>)
    requires Follows(d, c, x) && c.port.wait.Ready? && !v.Reject? && c.state.VerifyServerCertificate?
    ensures Kept(d, c, DoVerifyServerCertificate(c, v), x)
  {
    hide ClientFrom, ServerFrom, Expects, MessageDue, Deal.Resumed, Deal.CertAuth, Deal.Ticket, Deal.ChannelId,
      Deal.CertRequest, Deal.KeyExchangeParams, Deal.CertificateMissing;
  }

  lemma ReadServerKeyExchangeFollows(d: Deal, c: Client, v: Verdict, x: seq<Item>)
    requires Follows(d, c, x) && c.port.wait.Ready? && !v.Reject? && c.state.ReadServerKeyExchange?
    ensures Kept(d, c, DoReadServerKeyExchange(c, v), x)
  {
    hide ClientFrom, ServerFrom, Expects, MessageDue, Deal.Resumed, Deal.Ticket, Deal.ChannelId, Deal.CertRequest,
      Deal.KeyExchangeParams, Deal.CertificateMissing;
    KeyExchangeNext(d, c.port.buffer, x);
  }

  lemma ReadCertificateRequestFollows(d: Deal, c: Client, v: Verdict, x: seq<Item>)
    requires Follows(d, c, x) && c.port.wait.Ready? && !v.Reject? && c.state.ReadCertificateRequest?
    ensures Kept(d, c, DoReadCertificateRequest(c, v), x)
  {
    hide ClientFrom, ServerFrom, Expects, MessageDue, Deal.Resumed, Deal.Ticket, Deal.ChannelId, Deal.CertRequest,
      Deal.KeyExchangeParams, Deal.CertificateMissing;
    RequestNext(d, c.port.buffer, x);
  }

  lemma ReadServerHelloDoneFollows(d: Deal, c: Client, v: Verdict, x: seq<Item>)
    requires Follows(d, c, x) && c.port.wait.Ready? && !v.Reject? && c.state.ReadServerHelloDone?
    ensures Kept(d, c, DoReadServerHelloDone(c, v), x)
  {
    hide ClientFrom, ServerFrom, Expects, MessageDue, Deal.Resumed, Deal.CertAuth, Deal.Ticket, Deal.ChannelId,
      Deal.CertRequest, Deal.KeyExchangeParams, Deal.Agreed, Deal.CertificateMissing;
    ServerNext(d, 5, c.port.buffer, x);
  }

  lemma SendClientCertificateFollows(d: Deal, c: Client, v: Verdict, x: seq<Item>)
    requires Follows(d, c, x) && c.port.wait.Ready? && !v.Reject? && c.state.SendClientCertificate?
    ensures Kept(d, c, DoSendClientCertificate(c, v), x)
  {
    hide ClientFrom, ServerFrom, Expects, MessageDue, Deal.Resumed, Deal.CertAuth, Deal.Ticket, Deal.ChannelId,
      Deal.CertRequest, Deal.KeyExchangeParams, Deal.Agreed, Deal.CertificateMissing;
    ClientStage(d, 1);
    Written(c.port.flight, [], ClientItem(d, 1), ClientFrom(d, 2));
  }

  lemma SendClientKeyExchangeFollows(d: Deal, c: Client, v: Verdict, x: seq<Item>)
    requires Follows(d, c, x) && c.port.wait.Ready? && !v.Reject? && c.state.SendClientKeyExchange?
    ensures Kept(d, c, DoSendClientKeyExchange(c, v), x)
  {
    hide ClientFrom, ServerFrom, Expects, MessageDue, Deal.Resumed, Deal.CertAuth, Deal.Ticket, Deal.ChannelId,
      Deal.CertRequest, Deal.KeyExchangeParams, Deal.Agreed, Deal.CertificateMissing;
    ClientStage(d, 2);
    Written(c.port.flight, [], ClientItem(d, 2), ClientFrom(d, 3));
  }

  lemma SendClientCertificateVerifyFollows(d: Deal, c: Client, v: Verdict, x: seq<Item>)
    requires Follows(d, c, x) && c.port.wait.Ready? && !v.Reject? && c.state.SendClientCertificateVerify?
    ensures Kept(d, c, DoSendClientCertificateVerify(c, v), x)
  {
    hide ClientFrom, ServerFrom, Expects, MessageDue, Deal.Resumed, Deal.CertAuth, Deal.Ticket, Deal.ChannelId,
      Deal.CertRequest, Deal.KeyExchangeParams, Deal.Agreed, Deal.CertificateMissing;
    ClientStage(d, 3);
    Written(c.port.flight, [], ClientItem(d, 3), ClientFrom(d, 4));
  }

  lemma SendClientFinishedFollows(d: Deal, c: Client, v: Verdict, x: seq<Item>)
    requires Follows(d, c, x) && c.port.wait.Ready? && !v.Reject? && c.state.SendClientFinished?
    ensures Kept(d, c, DoSendClientFinished(c, v), x)
  {
    hide ClientFrom, ServerFrom, Expects, MessageDue, Deal.Resumed, Deal.CertAuth, Deal.Ticket, Deal.CertRequest,
      Deal.KeyExchangeParams, Deal.CertificateMissing;
    LastFlight(d, c.port.flight);
  }

  lemma FinishFlightFollows(d: Deal, c: Client, v: Verdict, x: seq<Item>)
    requires Follows(d, c, x) && c.port.wait.Ready? && !v.Reject? && c.state.FinishFlight?
    ensures Kept(d, c, DoFinishFlight(c, v), x)
  {
    hide ClientFrom, ServerFrom, Expects, MessageDue, Deal.Resumed, Deal.CertAuth, Deal.Ticket, Deal.ChannelId,
      Deal.CertRequest, Deal.KeyExchangeParams, Deal.Agreed, Deal.CertificateMissing;
  }

  lemma ReadSessionTicketFollows(d: Deal, c: Client, v: Verdict, x: seq<Item>)
    requires Follows(d, c, x) && c.port.wait.Ready? && !v.Reject? && c.state.ReadSessionTicket?
    ensures Kept(d, c, DoReadSessionTicket(c, v), x)
  {
    hide ClientFrom, ServerFrom, Expects, MessageDue, Deal.Resumed, Deal.CertAuth, Deal.Ticket, Deal.ChannelId,
      Deal.CertRequest, Deal.KeyExchangeParams, Deal.Agreed, Deal.CertificateMissing;
    ServerNext(d, 6, c.port.buffer, x);
    if !d.Ticket() {
      ServerNext(d, 7, c.port.buffer, x);
    }
  }

  lemma ProcessCcsFollows(d: Deal, c: Client, v: Verdict, x: seq<Item>)
    requires Follows(d, c, x) && c.port.wait.Ready? && !v.Reject? && c.state.ProcessCcs?
    ensures Kept(d, c, DoProcessCcs(c, v), x)
  {
    hide ClientFrom, ServerFrom, Expects, MessageDue, Deal.Resumed, Deal.CertAuth, Deal.Ticket, Deal.ChannelId,
      Deal.CertRequest, Deal.KeyExchangeParams, Deal.Agreed, Deal.CertificateMissing;
  }

  lemma ReadServerFinishedFollows(d: Deal, c: Client, v: Verdict, x: seq<Item>)
    requires Follows(d, c, x) && c.port.wait.Ready? && !v.Reject? && c.state.ReadServerFinished?
    ensures Kept(d, c, DoReadServerFinished(c, v), x)
  {
    hide ClientFrom, ServerFrom, Expects, MessageDue, Deal.Resumed, Deal.CertAuth, Deal.Ticket, Deal.ChannelId,
      Deal.CertRequest, Deal.KeyExchangeParams, Deal.Agreed, Deal.CertificateMissing;
    ServerNext(d, 8, c.port.buffer, x);
  }

  lemma FinishClientHandshakeFollows(d: Deal, c: Client, v: Verdict, x: seq<Item>)
    requires Follows(d, c, x) && c.port.wait.Ready? && !v.Reject? && c.state.FinishClientHandshake?
    ensures Kept(d, c, DoFinishClientHandshake(c), x)
  {
    hide ClientFrom, ServerFrom, Expects, MessageDue, Deal.Resumed, Deal.CertAuth, Deal.Ticket, Deal.ChannelId,
      Deal.CertRequest, Deal.KeyExchangeParams, Deal.Agreed, Deal.CertificateMissing;
  }

  lemma StartFollows(d: Deal)
    requires d.Consistent()
    ensures Follows(d, Start(d.client), ServerFrom(d, 0)) && Outgoing(d, Start(d.client)) == ClientFrom(d, 0)
  {
    hide ClientFrom, ServerFrom, Deal.Consistent;
    assert Buffered(None) + ServerFrom(d, 0) == ServerFrom(d, 0);
    assert [] + ClientFrom(d, 0) == ClientFrom(d, 0);
  }

  /** One round of the loop keeps the client on the script, unless a check fails. */
  lemma StepFollows(d: Deal, c: Client, v: Verdict, x: seq<Item>)
    requires Follows(d, c, x) && c.port.wait.Ready? && !c.state.Done? && !v.Reject?
    ensures Kept(d, c, Step(c, v), x)
  {
    hide Follows, Kept, DoStartConnect, DoEnterEarlyData, DoReadServerHello, DoReadServerCertificate,
      DoReadCertificateStatus, DoVerifyServerCertificate, DoReadServerKeyExchange, DoReadCertificateRequest,
      DoReadServerHelloDone, DoSendClientCertificate, DoSendClientKeyExchange, DoSendClientCertificateVerify,
      DoSendClientFinished, DoFinishFlight, DoReadSessionTicket, DoProcessCcs, DoReadServerFinished,
      DoFinishClientHandshake;
    if c.state.StartConnect? {
      StartConnectFollows(d, c, v, x);
    } else if c.state.EnterEarlyData? {
      EnterEarlyDataFollows(d, c, v, x);
    } else if c.state.ReadServerHello? {
      ReadServerHelloFollows(d, c, v, x);
    } else if c.state.ReadServerCertificate? {
      ReadServerCertificateFollows(d, c, v, x);
    } else if c.state.ReadCertificateStatus? {
      ReadCertificateStatusFollows(d, c, v, x);
    } else if c.state.VerifyServerCertificate? {
      VerifyServerCertificateFollows(d, c, v, x);
    } else if c.state.ReadServerKeyExchange? {
      ReadServerKeyExchangeFollows(d, c, v, x);
    } else if c.state.ReadCertificateRequest? {
      ReadCertificateRequestFollows(d, c, v, x);
    } else if c.state.ReadServerHelloDone? {
      ReadServerHelloDoneFollows(d, c, v, x);
    } else if c.state.SendClientCertificate? {
      SendClientCertificateFollows(d, c, v, x);
    } else if c.state.SendClientKeyExchange? {
      SendClientKeyExchangeFollows(d, c, v, x);
    } else if c.state.SendClientCertificateVerify? {
      SendClientCertificateVerifyFollows(d, c, v, x);
    } else if c.state.SendClientFinished? {
      SendClientFinishedFollows(d, c, v, x);
    } else if c.state.FinishFlight? {
      FinishFlightFollows(d, c, v, x);
    } else if c.state.ReadSessionTicket? {
      ReadSessionTicketFollows(d, c, v, x);
    } else if c.state.ProcessCcs? {
      ProcessCcsFollows(d, c, v, x);
    } else if c.state.ReadServerFinished? {
      ReadServerFinishedFollows(d, c, v, x);
    } else {
      FinishClientHandshakeFollows(d, c, v, x);
    }
  }

  /** Whatever part of the flight the transport takes, what it took and what is left is what there was. */
  lemma FlushFollows(d: Deal, c: Client, k: nat, x: seq<Item>)
    requires Follows(d, c, x) && c.port.wait.Flush? && k <= |c.port.flight|
    ensures var t := c.(port := FlushSome(c.port, k));
      Follows(d, t, x) && Outgoing(d, c) == c.port.flight[..k] + Outgoing(d, t)
  {
    hide ClientFrom, ServerFrom, Knows;
    Cut(c.port.flight, k, ClientFrom(d, Writes(c)));
  }

  /** What the peer says next is what this side waits for. */
  lemma ReceiveFollows(d: Deal, c: Client, x: seq<Item>)
    requires Follows(d, c, x) && (c.port.wait.ReadMessage? || c.port.wait.ReadCcs?) && |x| > 0
    ensures var t := c.(port := Receive(c.port, x[0])); Kept(d, c, t, x[1..])
  {
    hide ClientFrom, ServerFrom, Knows;
    assert Buffered(None) + x == x;
    assert Buffered(Some(x[0])) + x[1..] == x;
    ServerStage(d, 7);
    assert Buffered(None) + x[1..] == x[1..];
    assert [Ccs] + ServerFrom(d, 8) == x && c.port.wait.ReadCcs? ==> x[1..] == ServerFrom(d, 8);
  }

  lemma ResumeFollows(d: Deal, c: Client, x: seq<Item>)
    requires Follows(d, c, x) && (c.port.wait.Pending? || c.port.wait.EarlyReturn?)
    ensures Kept(d, c, c.(port := Resume(c.port)), x)
  {
    hide ClientFrom, ServerFrom, Knows;
  }

  /** A client that waits for the peer has sent all it had, and something is still to come. */
  lemma BlockedIsOwed(d: Deal, c: Client, x: seq<Item>)
    requires Follows(d, c, x) && (c.port.wait.ReadMessage? || c.port.wait.ReadCcs?)
    ensures |x| > 0 && c.port.flight == []
    ensures Outgoing(d, c) == ClientFrom(d, Writes(c))
    ensures x == ServerFrom(d, Reads(c)) && Reads(c) < SERVER_END
    ensures 1 <= Writes(c) <= CLIENT_END
    ensures !d.Resumed() && Reads(c) >= 6 ==> Writes(c) == CLIENT_END
  {
    hide ClientFrom, ServerFrom;
    assert Buffered(None) + x == x;
    ServerStage(d, 7);
  }
}
