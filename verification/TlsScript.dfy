/**
 What two sides that agree on their options say to each other, message by message (section 7.3 of RFC 5246), and how
 a side that follows this script can be wrong about what comes next.
 */
module TlsScript {
  import opened Wrappers
  import opened TlsHandshake
  import TlsClient
  import TlsServer

  /** The options of the two sides. The functions say what comes out of them. */
  datatype Deal = Deal(client: TlsClient.Config, server: TlsServer.Config) {
    predicate Resumed() { client.session && server.resumable }

    predicate CertAuth() { !server.pskAuth }

    predicate Ticket() { if Resumed() then server.renewTicket else server.ticketsSupported }

    predicate ChannelId() {
      server.channelIdOffered && server.kx.Ecdhe? && (Resumed() ==> server.sessionHasHashes)
    }

    predicate CertRequest() {
      !Resumed() && server.verifyPeer && !(server.notWithChannelId && server.channelIdOffered) && CertAuth()
    }

    predicate KeyExchangeParams() { server.kx.Ecdhe? || (server.pskAuth && server.hint) }

    function Agreed(): Hello {
      Hello(Resumed(), server.kx, server.pskAuth, Ticket(), server.npn, ChannelId(), server.ocsp)
    }

    /** The one disagreement that the options leave open: the server insists on a certificate that is not there. */
    predicate CertificateMissing() { CertRequest() && server.failIfNoCert && !client.hasCert }

    /** The key exchanges without certificates are those with a pre-shared key. */
    predicate Consistent() { Agreed().Consistent() }
  }

  function OneIf(b: bool, item: Item): seq<Item> { if b then [item] else [] }

  const CLIENT_END := 8
  const SERVER_END := 9

  /** What the client says at stage `k`. */
  function ClientItem(d: Deal, k: nat): seq<Item> {
    if k == 0 then [ClientHello(d.client.session)]
    else if k == 1 then OneIf(d.CertRequest(), Certificate(d.client.hasCert))
    else if k == 2 then OneIf(!d.Resumed(), ClientKeyExchange)
    else if k == 3 then OneIf(d.CertRequest() && d.client.hasCert, CertificateVerify)
    else if k == 4 then [Ccs]
    else if k == 5 then OneIf(d.server.npn, NextProto)
    else if k == 6 then OneIf(d.ChannelId(), ChannelId)
    else [Finished]
  }

  /** What the server says at stage `k`. */
  function ServerItem(d: Deal, k: nat): seq<Item> {
    if k == 0 then [ServerHello(d.Agreed())]
    else if k == 1 then OneIf(!d.Resumed() && d.CertAuth(), Certificate(true))
    else if k == 2 then OneIf(!d.Resumed() && d.CertAuth() && d.server.ocsp, CertificateStatus)
    else if k == 3 then OneIf(!d.Resumed() && d.KeyExchangeParams(), ServerKeyExchange)
    else if k == 4 then OneIf(d.CertRequest(), CertificateRequest)
    else if k == 5 then OneIf(!d.Resumed(), ServerHelloDone)
    else if k == 6 then OneIf(d.Ticket(), NewSessionTicket(d.server.emptyTicket))
    else if k == 7 then [Ccs]
    else [Finished]
  }

  /** What the client still has to say from stage `k` on. */
  function ClientFrom(d: Deal, k: nat): seq<Item>
    decreases CLIENT_END - k
  {
    if k >= CLIENT_END then [] else ClientItem(d, k) + ClientFrom(d, k + 1)
  }

  function ServerFrom(d: Deal, k: nat): seq<Item>
    decreases SERVER_END - k
  {
    if k >= SERVER_END then [] else ServerItem(d, k) + ServerFrom(d, k + 1)
  }

  // ----- Reading along -----

  function Buffered(b: Option<Item>): seq<Item> {
    if b.Some? then [b.value] else []
  }

  /** With `x` still to come, the buffer and then `x` are exactly what the script says. */
  predicate Expects(b: Option<Item>, x: seq<Item>, script: seq<Item>) {
    Buffered(b) + x == script
  }

  /** The script goes on with a message, not with a ChangeCipherSpec. */
  predicate MessageDue(script: seq<Item>) {
    |script| > 0 && !script[0].Ccs?
  }

  lemma Next(b: Option<Item>, x: seq<Item>, e: Item, rest: seq<Item>)
    requires Expects(b, x, [e] + rest)
    ensures b.Some? ==> b.value == e && Expects(None, x, rest)
    ensures b.None? ==> x == [e] + rest
  {
    if b.Some? {
      assert (Buffered(b) + x)[0] == e;
      assert x == (Buffered(b) + x)[1..] == ([e] + rest)[1..] == rest;
    }
    assert [] + x == x;
  }

  // ----- The stages of the scripts -----

  lemma ClientStage(d: Deal, k: nat)
    requires k < CLIENT_END
    ensures ClientFrom(d, k) == ClientItem(d, k) + ClientFrom(d, k + 1)
    ensures ClientItem(d, k) == [] ==> ClientFrom(d, k) == ClientFrom(d, k + 1)
  {
  }

  lemma ServerStage(d: Deal, k: nat)
    requires k < SERVER_END
    ensures ServerFrom(d, k) == ServerItem(d, k) + ServerFrom(d, k + 1)
    ensures ServerItem(d, k) == [] ==> ServerFrom(d, k) == ServerFrom(d, k + 1)
  {
  }

  /** What a side can read at stage `k`. */
  predicate CanRead(item: seq<Item>, b: Option<Item>, x: seq<Item>, script: seq<Item>, rest: seq<Item>) {
    if item == [] then Expects(b, x, rest) && script == rest
    else
      && (b.Some? ==> b.value == item[0] && Expects(None, x, rest))
      && (item[0].Ccs? || MessageDue(script))
  }

  lemma ClientNext(d: Deal, k: nat, b: Option<Item>, x: seq<Item>)
    requires k < CLIENT_END && Expects(b, x, ClientFrom(d, k))
    ensures CanRead(ClientItem(d, k), b, x, ClientFrom(d, k), ClientFrom(d, k + 1))
  {
    hide ClientFrom;
    ClientStage(d, k);
    if ClientItem(d, k) != [] {
      Next(b, x, ClientItem(d, k)[0], ClientFrom(d, k + 1));
    }
  }

  lemma ServerNext(d: Deal, k: nat, b: Option<Item>, x: seq<Item>)
    requires k < SERVER_END && Expects(b, x, ServerFrom(d, k))
    ensures CanRead(ServerItem(d, k), b, x, ServerFrom(d, k), ServerFrom(d, k + 1))
  {
    hide ServerFrom;
    ServerStage(d, k);
    if ServerItem(d, k) != [] {
      Next(b, x, ServerItem(d, k)[0], ServerFrom(d, k + 1));
    }
  }

  /** A resumed handshake leaves out everything between the hellos and the end. */
  lemma ResumedSkips(d: Deal)
    requires d.Resumed()
    ensures ClientFrom(d, 1) == ClientFrom(d, 4)
    ensures ServerFrom(d, 1) == ServerFrom(d, 6)
  {
    hide ClientFrom, ServerFrom;
    ClientStage(d, 1); ClientStage(d, 2); ClientStage(d, 3);
    ServerStage(d, 1); ServerStage(d, 2); ServerStage(d, 3); ServerStage(d, 4); ServerStage(d, 5);
  }

  /** What is left never grows from stage to stage. */
  lemma {:induction false} ClientShrinks(d: Deal, j: nat, k: nat)
    requires j <= k <= CLIENT_END
    ensures |ClientFrom(d, j)| >= |ClientFrom(d, k)|
    decreases k - j
  {
    if j < k {
      ClientShrinks(d, j + 1, k);
    }
  }

  lemma {:induction false} ServerShrinks(d: Deal, j: nat, k: nat)
    requires j <= k <= SERVER_END
    ensures |ServerFrom(d, j)| >= |ServerFrom(d, k)|
    decreases k - j
  {
    if j < k {
      ServerShrinks(d, j + 1, k);
    }
  }

  /** In a full handshake, what comes next at the optional messages of the server's first flight. */
  lemma OptionalMessages(d: Deal)
    requires !d.Resumed()
    ensures |ServerFrom(d, 5)| > 0 && ServerFrom(d, 5)[0] == ServerHelloDone
    ensures |ServerFrom(d, 4)| > 0
    ensures ServerFrom(d, 4)[0] == if d.CertRequest() then CertificateRequest else ServerHelloDone
    ensures |ServerFrom(d, 3)| > 0
    ensures ServerFrom(d, 3)[0] == if d.KeyExchangeParams() then ServerKeyExchange else ServerFrom(d, 4)[0]
  {
    hide ServerFrom;
    ServerStage(d, 5);
    ServerStage(d, 4);
    ServerStage(d, 3);
  }

  /** What the buffer holds is what is next; it tells whether an optional message has been left out. */
  lemma OptionalNext(d: Deal, k: nat, b: Option<Item>, x: seq<Item>)
    requires !d.Resumed() && 2 <= k <= 4 && Expects(b, x, ServerFrom(d, k))
    ensures MessageDue(ServerFrom(d, k))
    ensures b.Some? && k == 2 ==> (b.value.CertificateStatus? <==> d.CertAuth() && d.server.ocsp)
    ensures b.Some? && k == 3 ==> (b.value.ServerKeyExchange? <==> d.KeyExchangeParams())
    ensures b.Some? && k == 4 ==> b.value == if d.CertRequest() then CertificateRequest else ServerHelloDone
  {
    hide ServerFrom;
    OptionalMessages(d);
    ServerStage(d, 2);
    assert b.Some? ==> (Buffered(b) + x)[0] == b.value;
  }

  /** A CertificateStatus that was announced may come or not. */
  lemma StatusNext(d: Deal, b: Option<Item>, x: seq<Item>)
    requires !d.Resumed() && Expects(b, x, ServerFrom(d, 2))
    ensures MessageDue(ServerFrom(d, 2))
    ensures b.Some? && b.value.CertificateStatus? ==> Expects(None, x, ServerFrom(d, 3))
    ensures !d.server.ocsp || (b.Some? && !b.value.CertificateStatus?) ==> Expects(b, x, ServerFrom(d, 3))
  {
    hide ServerFrom, Expects, MessageDue;
    OptionalNext(d, 2, b, x);
    ServerNext(d, 2, b, x);
  }

  /** A ServerKeyExchange comes with every ephemeral key exchange and with no RSA key exchange. */
  lemma KeyExchangeNext(d: Deal, b: Option<Item>, x: seq<Item>)
    requires d.Consistent() && !d.Resumed() && Expects(b, x, ServerFrom(d, 3))
    ensures MessageDue(ServerFrom(d, 3))
    ensures b.Some? && b.value.ServerKeyExchange? ==> !d.server.kx.Rsa? && Expects(None, x, ServerFrom(d, 4))
    ensures b.Some? && !b.value.ServerKeyExchange? ==> !d.server.kx.Ecdhe? && Expects(b, x, ServerFrom(d, 4))
  {
    hide ServerFrom, Expects, MessageDue;
    OptionalNext(d, 3, b, x);
    ServerNext(d, 3, b, x);
  }

  /** Only where certificates are used, the server may ask for one. */
  lemma RequestNext(d: Deal, b: Option<Item>, x: seq<Item>)
    requires !d.Resumed() && Expects(b, x, ServerFrom(d, 4))
    ensures MessageDue(ServerFrom(d, 4))
    ensures b.Some? && b.value.CertificateRequest? ==> d.CertRequest() && Expects(None, x, ServerFrom(d, 5))
    ensures (b.Some? && !b.value.CertificateRequest?) || !d.CertAuth() ==>
      !d.CertRequest() && Expects(b, x, ServerFrom(d, 5))
    ensures b.Some? && !b.value.CertificateRequest? ==> b.value.ServerHelloDone?
  {
    hide ServerFrom, Expects, MessageDue;
    OptionalNext(d, 4, b, x);
    ServerNext(d, 4, b, x);
  }

  lemma LastItems(d: Deal)
    ensures ClientItem(d, 4) == [Ccs] && ClientItem(d, 7) == [Finished]
    ensures ClientFrom(d, CLIENT_END) == [] && ServerFrom(d, SERVER_END) == []
  {
  }

  /** Three pieces and what follows, however they are put together. */
  lemma Written(flight: seq<Item>, items: seq<Item>, more: seq<Item>, rest: seq<Item>)
    ensures (flight + (items + more)) + rest == flight + (items + (more + rest))
    ensures (flight + (items + more)) + rest == flight + ((items + more) + rest)
  {
  }

  lemma Cut(flight: seq<Item>, k: nat, rest: seq<Item>)
    requires k <= |flight|
    ensures flight + rest == flight[..k] + (flight[k..] + rest)
    ensures k == |flight| ==> flight[k..] == []
  {
  }
}
