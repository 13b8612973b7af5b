/**
 What both sides of a TLS 1.0 to 1.2 handshake share (section 7.3 of RFC 5246): the messages, the points at which
 a side waits, and the way a side takes in and gives out messages.
 */
module TlsHandshake {
  import opened Wrappers

  datatype KeyExchange = Rsa | Ecdhe | Psk

  /** What the ServerHello settles: resumption, the cipher, and the extensions that change the flow. */
  datatype Hello = Hello(
    resumed: bool,
    kx: KeyExchange,
    pskAuth: bool,
    ticket: bool,
    npn: bool,
    channelId: bool,
    ocsp: bool)
  {
    predicate CertAuth() { !pskAuth }

    predicate NeedsServerKeyExchange() { kx.Ecdhe? }

    /** The key exchanges without certificates are those with a pre-shared key. */
    predicate Consistent() {
      (kx.Psk? ==> pskAuth) && (kx.Rsa? ==> !pskAuth)
    }
  }

  /** Messages and the ChangeCipherSpec, in the order of the wire. A Certificate may be empty. */
  datatype Item =
    | ClientHello(session: bool)
    | ServerHello(hello: Hello)
    | Certificate(present: bool)
    | CertificateStatus
    | ServerKeyExchange
    | CertificateRequest
    | ServerHelloDone
    | ClientKeyExchange
    | CertificateVerify
    | NextProto
    | ChannelId
    | NewSessionTicket(empty: bool)
    | Ccs
    | Finished

  /** What a side is waiting for. `Pending` stands for every callback and key operation that can be retried. */
  datatype Wait = Ready | Failed | Flush | ReadMessage | ReadCcs | Pending | EarlyReturn

  /**
   How the world answers a step: all checks pass and callbacks answer, or a callback asks to be called again, or a
   check fails.
   */
  datatype Verdict = Accept | Retry | Reject

  /** The steps that matter for the security of a connection, in the order in which they happen. */
  datatype Event = SetWriteKey | SendFinished | SetReadKey | VerifyFinished

  /** What has happened, the latest last. */
  datatype Log = Nothing | And(before: Log, last: Event)

  /** A change of the write key, and right after it a Finished. */
  function Wrote(l: Log): Log { And(And(l, SetWriteKey), SendFinished) }

  /** A change of the read key, and after it the verification of a Finished. */
  function Verified(l: Log): Log { And(And(l, SetReadKey), VerifyFinished) }

  /** The connection as one side's state machine sees it. */
  datatype Port = Port(wait: Wait, buffer: Option<Item>, flight: seq<Item>, log: Log) {
    function On(w: Wait): Port { this.(wait := w) }

    function Fail(): Port { this.(wait := Failed) }

    /** Done with the message in the buffer. */
    function Next(): Port { this.(buffer := None) }

    function Send(items: seq<Item>): Port { this.(flight := flight + items) }

    function Note(e: Event): Port { this.(log := And(log, e)) }
  }

  const NEW_PORT := Port(Ready, None, [], Nothing)

  /** What a call of the handshake driver returns. */
  datatype Outcome = Completed | EarlyReturned | Blocked | Error

  // ----- Resolving a wait -----

  /** Hands `k` items of the flight to the transport; the wait is over when none is left. */
  function FlushSome(p: Port, k: nat): Port
    requires p.wait.Flush? && k <= |p.flight|
  {
    p.(flight := p.flight[k..], wait := if k == |p.flight| then Ready else Flush)
  }

  /** Takes in the next record; a message where a ChangeCipherSpec is due, or the reverse, is fatal. */
  function Receive(p: Port, item: Item): Port
    requires p.wait.ReadMessage? || p.wait.ReadCcs?
  {
    if p.wait.ReadCcs? then if item.Ccs? then p.On(Ready) else p.Fail()
    else if item.Ccs? then p.Fail()
    else p.(buffer := Some(item), wait := Ready)
  }

  /** Exactly a record of the kind waited for is taken; a message is then there to be read. */
  lemma ReceivesWhatIsDue(p: Port, item: Item)
    requires p.wait.ReadMessage? || p.wait.ReadCcs?
    ensures Receive(p, item).wait == if p.wait.ReadCcs? == item.Ccs? then Ready else Failed
    ensures Receive(p, item).wait.Ready? ==>
      Receive(p, item).buffer == if item.Ccs? then p.buffer else Some(item)
  {
  }

  /** The application calls again. */
  function Resume(p: Port): Port
    requires p.wait.Pending? || p.wait.EarlyReturn?
  {
    p.On(Ready)
  }

  /** Switching the read key fails when an unread message is left over. */
  function SwitchReadKey(p: Port, v: Verdict): Port {
    if p.buffer.Some? || v.Reject? then p.Fail() else p.Note(SetReadKey)
  }

  // ----- Runs -----

  /** What can happen to a machine: a round, a part of the flight handed over, a record, or another call. */
  datatype Move = Run(v: Verdict) | Flushed(k: nat) | Arrives(item: Item) | Called

  /** The records that the moves take in. */
  function Taken(moves: seq<Move>): seq<Item> {
    if moves == [] then [] else TakenBy(moves[0]) + Taken(moves[1..])
  }

  function TakenBy(m: Move): seq<Item> {
    if m.Arrives? then [m.item] else []
  }

  lemma Associates(a: seq<Item>, b: seq<Item>, c: seq<Item>)
    ensures (a + b) + c == a + (b + c)
  {
  }

  lemma {:induction false} TakenJoins(a: seq<Move>, b: seq<Move>)
    ensures Taken(a + b) == Taken(a) + Taken(b)
  {
    hide TakenBy;
    if a == [] {
      assert a + b == b;
    } else {
      assert (a + b)[1..] == a[1..] + b;
      TakenJoins(a[1..], b);
      Associates(TakenBy(a[0]), Taken(a[1..]), Taken(b));
    }
  }

  lemma {:induction false} RoundsTakeNothing(moves: seq<Move>)
    requires forall i | 0 <= i < |moves| :: moves[i].Run?
    ensures Taken(moves) == []
  {
    if moves != [] {
      RoundsTakeNothing(moves[1..]);
    }
  }

  lemma OneTakes(moves: seq<Move>, m: Move)
    requires moves == [m]
    ensures Taken(moves) == TakenBy(m)
  {
    assert [m][1..] == [];
  }
}
