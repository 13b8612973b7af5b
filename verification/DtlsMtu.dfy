/**
 What the packet size does to a flight: how large the records of a transmission are, which packet sizes keep all of them
 within what a receiver takes, and what happens under the others.
 */
module DtlsMtu {
  import opened Wrappers
  import opened DtlsWire
  import opened DtlsReplay
  import DtlsNonces
  import opened DtlsRecord
  import opened DtlsSender
  import opened DtlsReceiver
  import opened DtlsEndToEnd
  import opened DtlsDelivery

  // ----- How large the records are -----

  /** The record is sealed under the key, and the plaintext leaves room for the key's overhead. */
  predicate Within(tx: Tx, rec: Rec, previous: bool, mtu: nat)
    requires previous ==> tx.epoch >= 1
  {
    SealedUnder(rec, tx, previous) && |rec.plaintext| + MaxSealOverhead(tx, previous) <= mtu
  }

  /** A record as a sender cuts it for packets of `mtu` bytes. */
  predicate Cut(tx: Tx, rec: Rec, mtu: nat) {
    && rec.Fits() && RT_HEADER_LENGTH + |rec.ciphertext| <= mtu
    && (Within(tx, rec, false, mtu) || (tx.epoch >= 1 && Within(tx, rec, true, mtu)))
  }

  predicate AllCut(tx: Tx, recs: seq<Rec>, mtu: nat) {
    forall i | 0 <= i < |recs| :: Cut(tx, recs[i], mtu)
  }

  lemma CutStays(a: Tx, b: Tx, recs: seq<Rec>, m: nat, n: nat)
    requires SameKeys(a, b) && AllCut(b, recs, m) && m <= n
    ensures AllCut(a, recs, n)
  {
    forall i | 0 <= i < |recs|
      ensures Cut(a, recs[i], n)
    {
      assert Cut(b, recs[i], m);
    }
  }

  lemma AllCutJoins(tx: Tx, a: seq<Rec>, b: seq<Rec>, mtu: nat)
    requires AllCut(tx, a, mtu) && AllCut(tx, b, mtu)
    ensures AllCut(tx, a + b, mtu)
  {
    hide Cut;
  }

  lemma SealNextCut(s: Sender, maxOut: nat)
    requires s.tx.Fits() && s.written < |s.msgs|
    ensures var result := SealNext(s, maxOut).1;
      result.SealPartial? || result.SealSuccess? ==> Cut(s.tx, result.rec, maxOut)
  {
    hide Seal, WholeMessage, FragmentText, SealPrefixLen, SealedUnder;
    var m := s.msgs[s.written];
    if !m.isCcs && WholeMessage(m.data).Some? {
      var whole := WholeMessage(m.data).value;
      var room := maxOut - HM_HEADER_LENGTH - MaxSealOverhead(s.tx, UsesPrevious(s, m));
      if s.offset <= |whole.body| && room >= 1 {
        FragmentTextLength(whole, s.offset, Min(|whole.body| - s.offset, room));
      }
    }
  }

  lemma {:induction false} PackCut(s: Sender, maxOut: nat)
    requires s.tx.Fits() && s.written <= |s.msgs|
    ensures AllCut(s.tx, Pack(s, maxOut).recs, maxOut)
    decreases |s.msgs| - s.written
  {
    hide SealNext, Cut, Rec.Wire, Rec.Fits, SealedFor;
    if s.written < |s.msgs| {
      SealNextCut(s, maxOut);
      PackStep(s, maxOut);
      SealNextKeeps(s, maxOut);
      var (t, result) := SealNext(s, maxOut);
      if result.SealSuccess? {
        var next, left := t.(written := t.written + 1), maxOut - |result.rec.Wire()|;
        PackCut(next, left);
        CutStays(s.tx, next.tx, Pack(next, left).recs, left, maxOut);
        AllCutJoins(s.tx, [result.rec], Pack(next, left).recs, maxOut);
      }
    }
  }

  /** The records of a call are cut for its packet size. */
  lemma {:induction false} SendPacketsCut(s: Sender, mtu: nat, write: nat -> int, k: nat, flush: int)
    requires s.Valid()
    ensures AllCut(s.tx, Flatten(SendPackets(s, mtu, write, k, flush).packets), mtu)
    decreases |s.msgs| - s.written, BodyLeft(s)
  {
    hide Pack, AllCut, BodyLeft;
    NothingCut(s.tx, mtu);
    if s.written < |s.msgs| {
      SendStep(s, mtu, write, k, flush);
      PackSteps(s, mtu);
      PackCut(s, mtu);
      var p := SealPacket(s, mtu);
      if p.ok && write(k) > 0 {
        SendPacketsCut(p.s, mtu, write, k + 1, flush);
        var rest := SendPackets(p.s, mtu, write, k + 1, flush).packets;
        CutStays(s.tx, p.s.tx, Flatten(rest), mtu, mtu);
        AllCutJoins(s.tx, p.recs, Flatten(rest), mtu);
        FlattenCons(p.recs, rest);
      }
    }
  }

  lemma NothingCut(tx: Tx, mtu: nat)
    ensures AllCut(tx, [], mtu) && Flatten([]) == []
  {
  }

  /** And so are those of a flight that is interrupted and resumed, for the largest of the packet sizes. */
  lemma {:induction false} SendAllCut(s: Sender, attempts: seq<Attempt>, mtu: nat)
    requires s.Valid() && forall i | 0 <= i < |attempts| :: attempts[i].mtu <= mtu
    ensures AllCut(s.tx, Flatten(SendAll(s, attempts).packets), mtu)
    decreases |attempts|
  {
    hide AllCut, SendPackets, Steps;
    NothingCut(s.tx, mtu);
    if attempts != [] {
      var a := attempts[0];
      SendPacketsTile(s, a.mtu, a.write, 0, a.flush);
      SendPacketsCut(s, a.mtu, a.write, 0, a.flush);
      var o := SendFlight(s, false, a.mtu, a.write, a.flush);
      CutStays(s.tx, s.tx, Flatten(o.packets), a.mtu, mtu);
      if o.result != FlightSent && o.result != SealFailed {
        SendAllCut(o.s, attempts[1..], mtu);
        var rest := SendAll(o.s, attempts[1..]).packets;
        CutStays(s.tx, o.s.tx, Flatten(rest), mtu, mtu);
        FlattenConcat(o.packets, rest);
        AllCutJoins(s.tx, Flatten(o.packets), Flatten(rest), mtu);
      }
    }
  }

  // ----- What a transmission gives the receiver -----

  lemma {:induction false} StepAt(msgs: seq<OutMsg>, c: Cursor, recs: seq<Rec>, i: nat) returns (d: Cursor)
    requires Steps(msgs, c, recs).Some? && i < |recs|
    ensures Step(msgs, d, recs[i]).Some?
    decreases i
  {
    hide Step;
    if i == 0 {
      d := c;
    } else {
      d := StepAt(msgs, Step(msgs, c, recs[0]).value, recs[1..], i - 1);
    }
  }

  /** The receiver has the key of one of the sender's epochs, and takes the messages of that epoch. */
  ghost predicate Hears(r: Receiver, s: Sender, previous: bool) {
    && SharedKey(r.rx, s.tx, previous) && !r.rx.closed
    && forall w | 0 <= w < |s.msgs| && s.msgs[w].epoch == r.rx.epoch && !s.msgs[w].isCcs ::
      WholeMessage(s.msgs[w].data).Some? ==> Welcome(r, WholeMessage(s.msgs[w].data).value)
  }

  /** Of the two keys of a sender, the one of the record's epoch is the one it is sealed under. */
  lemma KeyOfEpoch(tx: Tx, rec: Rec, previous: bool, mtu: nat)
    requires Cut(tx, rec, mtu) && (previous ==> tx.epoch >= 1) && rec.epoch == tx.EpochFor(previous)
    ensures Within(tx, rec, previous, mtu)
  {
  }

  /**
   Every record of a transmission, interrupted and resumed with whatever packet sizes, is one that the channel theorem
   speaks of, if it is of the receiver's epoch; of any other epoch, or too long to be parsed, it is noise.
   */
  lemma SentIsReceivable(r: Receiver, msgs: seq<Message>, s: Sender, previous: bool, attempts: seq<Attempt>, i: nat,
      rest: Bytes)
    requires s.Valid() && Carries(s.msgs, msgs) && Hears(r, s, previous)
    requires i < |Flatten(SendAll(s, attempts).packets)|
    ensures var rec := Flatten(SendAll(s, attempts).packets)[i];
      && rec.Fits()
      && (if rec.epoch == r.rx.epoch && |rec.ciphertext| <= MAX_ENCRYPTED_LENGTH then Receivable(r, msgs, rec)
          else Ignored(r, rec.Wire() + rest))
  {
    hide SharedKey, SealedUnder, WholeMessage, Welcome, FragmentText, Steps, SendAll, Flatten, Rec.Wire, Ignored,
      MaxSealOverhead;
    var recs := Flatten(SendAll(s, attempts).packets);
    var rec, mtu := recs[i], Largest(attempts);
    InterruptedFlightTiles(s, attempts);
    SendAllCut(s, attempts, mtu);
    assert Cut(s.tx, rec, mtu);
    if |rec.ciphertext| > MAX_ENCRYPTED_LENGTH {
      MisfitIsIgnored(r, rec, rest);
    } else if rec.epoch != r.rx.epoch {
      ForeignIsIgnored(r, rec, rest);
    } else {
      var d := StepAt(s.msgs, At(s), recs, i);
      SharedEpoch(r.rx, s.tx, previous);
      KeyOfEpoch(s.tx, rec, previous, mtu);
      StepTyp(s.msgs, d, rec);
      assert Comes(r, msgs, s.tx, previous, s.msgs, d, rec);
    }
  }

  lemma SharedEpoch(rx: Rx, tx: Tx, previous: bool)
    requires SharedKey(rx, tx, previous)
    ensures (previous ==> tx.epoch >= 1) && rx.epoch == tx.EpochFor(previous)
  {
  }

  function Largest(attempts: seq<Attempt>): (m: nat)
    ensures forall i | 0 <= i < |attempts| :: attempts[i].mtu <= m
    ensures m == 0 || exists i :: 0 <= i < |attempts| && attempts[i].mtu == m
  {
    if attempts == [] then 0
    else
      var m := Largest(attempts[1..]);
      assert forall i | 0 < i < |attempts| :: attempts[i] == attempts[1..][i - 1];
      if m <= attempts[0].mtu then attempts[0].mtu else m
  }

  // ----- Packet sizes that are safe -----

  /** The packet leaves no more room than a record may hold, under either key. */
  predicate SafeMtu(tx: Tx, mtu: nat) {
    && mtu <= MAX_PLAIN_LENGTH + MaxSealOverhead(tx, false)
    && (tx.epoch >= 1 ==> mtu <= MAX_PLAIN_LENGTH + MaxSealOverhead(tx, true))
  }

  /** No record of the list opens to more than a record may hold. */
  predicate NoneOverflows(recs: seq<Rec>) {
    forall i | 0 <= i < |recs| :: !Overflows(recs[i])
  }

  /** Under safe packet sizes, changing from call to call, no record overflows, whatever the flight. */
  lemma {:induction false} SafeMtuNeverOverflows(s: Sender, attempts: seq<Attempt>)
    requires s.Valid() && forall i | 0 <= i < |attempts| :: SafeMtu(s.tx, attempts[i].mtu)
    ensures NoneOverflows(Flatten(SendAll(s, attempts).packets))
  {
    hide SealedUnder, SendAll, Flatten, Largest;
    var recs, m := Flatten(SendAll(s, attempts).packets), Largest(attempts);
    SendAllCut(s, attempts, m);
    assert SafeMtu(s.tx, m);
    forall i | 0 <= i < |recs|
      ensures !Overflows(recs[i])
    {
      assert Cut(s.tx, recs[i], m);
    }
  }

  /** The plaintext of the handshake record that is next at `d` is at most the message and its header. */
  lemma StepLength(msgs: seq<OutMsg>, d: Cursor, rec: Rec)
    requires Step(msgs, d, rec).Some?
    ensures d.written < |msgs|
    ensures msgs[d.written].isCcs ==> |rec.plaintext| == 1
    ensures !msgs[d.written].isCcs ==>
      && WholeMessage(msgs[d.written].data).Some?
      && |rec.plaintext| <= HM_HEADER_LENGTH + |WholeMessage(msgs[d.written].data).value.body|
  {
    hide WholeMessage, FragmentText;
    if !msgs[d.written].isCcs {
      var whole, len := WholeMessage(msgs[d.written].data).value, |rec.plaintext| - HM_HEADER_LENGTH;
      FragmentTextLength(whole, d.offset, len);
    }
  }

  /** Every message fits a record whole. */
  predicate MessagesAreShort(flight: seq<OutMsg>) {
    forall w | 0 <= w < |flight| && !flight[w].isCcs && WholeMessage(flight[w].data).Some? ::
      HM_HEADER_LENGTH + |WholeMessage(flight[w].data).value.body| <= MAX_PLAIN_LENGTH
  }

  /** Whatever the packet sizes, no record of messages overflows that fit a record whole. */
  lemma {:induction false} ShortMessagesNeverOverflow(s: Sender, attempts: seq<Attempt>)
    requires s.Valid() && MessagesAreShort(s.msgs)
    ensures NoneOverflows(Flatten(SendAll(s, attempts).packets))
  {
    hide WholeMessage, Steps, SendAll, Flatten;
    var recs := Flatten(SendAll(s, attempts).packets);
    InterruptedFlightTiles(s, attempts);
    forall i | 0 <= i < |recs|
      ensures !Overflows(recs[i])
    {
      var d := StepAt(s.msgs, At(s), recs, i);
      StepLength(s.msgs, d, recs[i]);
    }
  }

  // ----- And exactly those -----

  /** A sender with a flight of one message. */
  function OneMessage(tx: Tx, m: OutMsg): Sender {
    Sender(tx, 0, [m], 0, 0, true)
  }

  const TAKES_ALL: nat -> int := k => 1

  function Sent(s: Sender, mtu: nat): seq<Rec>
    requires s.Valid()
  {
    Flatten(SendPackets(s, mtu, TAKES_ALL, 0, 1).packets)
  }

  /** The first record of a flight of one message, sent through a transport that takes all, is as long as it can be. */
  lemma FirstRecord(tx: Tx, m: OutMsg, mtu: nat)
    requires Ready(OneMessage(tx, m), mtu) && !m.isCcs
    ensures var s := OneMessage(tx, m);
      Sent(s, mtu) != [] && |Sent(s, mtu)[0].plaintext| == LongestText(s, m, mtu)
  {
    hide Seal, WholeMessage, FragmentText, Pow256, NeverFails, Tx.Fits, Rec.Fits, Rec.Wire, SealedUnder, Units,
      SealNext, Pack, LongestText, BodyLeft, Flatten;
    var s := OneMessage(tx, m);
    assert CanGo(s, s.msgs[0], mtu);
    SealNextSucceeds(s, mtu, mtu);
    FirstText(s, m, mtu);
    PackStep(s, mtu);
    PackSucceeds(s, mtu, mtu);
    SendStep(s, mtu, TAKES_ALL, 0, 1);
    FlattenCons(SealPacket(s, mtu).recs, SendPackets(SealPacket(s, mtu).s, mtu, TAKES_ALL, 1, 1).packets);
  }

  lemma FirstText(s: Sender, m: OutMsg, mtu: nat)
    requires s.tx.Fits() && s.msgs == [m] && s.written == 0 && s.offset == 0 && !m.isCcs && CanGo(s, m, mtu)
    ensures var result := SealNext(s, mtu).1;
      result.SealPartial? || result.SealSuccess? ==> |result.rec.plaintext| == LongestText(s, m, mtu)
  {
    hide Seal, WholeMessage, FragmentText, SealPrefixLen, SealedUnder, Rec.Fits, Tx.Fits;
    var whole := WholeMessage(m.data).value;
    var room := mtu - HM_HEADER_LENGTH - MaxSealOverhead(s.tx, UsesPrevious(s, m));
    FragmentTextLength(whole, 0, Min(|whole.body|, room));
  }

  /** A flight of one message overflows exactly if the packet size lets the message or a fragment of it do so. */
  lemma OneMessageOverflowsExactly(tx: Tx, m: OutMsg, mtu: nat)
    requires Ready(OneMessage(tx, m), mtu) && !m.isCcs
    ensures var s := OneMessage(tx, m);
      NoneOverflows(Sent(s, mtu)) <==> LongestText(s, m, mtu) <= MAX_PLAIN_LENGTH
  {
    hide WholeMessage, Pow256, NeverFails, Tx.Fits, Units, Steps, SendPackets, Flatten, SealedUnder;
    var s := OneMessage(tx, m);
    FirstRecord(tx, m, mtu);
    SendPacketsCut(s, mtu, TAKES_ALL, 0, 1);
    SendPacketsTile(s, mtu, TAKES_ALL, 0, 1);
    var recs := Sent(s, mtu);
    forall i | 0 <= i < |recs|
      ensures |recs[i].plaintext| <= LongestText(s, m, mtu)
    {
      var d := StepAt(s.msgs, At(s), recs, i);
      StepLength(s.msgs, d, recs[i]);
      EpochOfStep(s.msgs, d, recs[i]);
      assert Cut(tx, recs[i], mtu);
      KeyOfEpoch(tx, recs[i], UsesPrevious(s, m), mtu);
    }
  }

  lemma EpochOfStep(msgs: seq<OutMsg>, d: Cursor, rec: Rec)
    requires Step(msgs, d, rec).Some?
    ensures d.written < |msgs| && rec.epoch == msgs[d.written].epoch
  {
    hide WholeMessage, FragmentText;
  }

  /** A message whose unfragmented form is `n` bytes longer than its header. */
  function Sized(n: nat): (m: Message)
    requires n < 0x100_0000
    ensures m.Fits() && |m.body| == n
  {
    Message(1, 0, seq(n, i => 0))
  }

  function SizedOut(n: nat, epoch: nat): OutMsg
    requires n < 0x100_0000
  {
    OutMsg(Sized(n).Raw(), epoch, false)
  }

  /** Both ciphers seal any text a packet can hold, and there are numbers left for a flight of one message. */
  ghost predicate Working(tx: Tx, mtu: nat) {
    && tx.Fits() && NeverFails(tx.aead, mtu) && tx.aead.MaxOverhead() < 0x8000
    && (tx.epoch >= 1 ==> NeverFails(tx.lastAead, mtu) && tx.lastAead.MaxOverhead() < 0x8000)
    && RoomToCount(tx, 0x200_0000)
  }

  lemma SizedIsReady(tx: Tx, previous: bool, n: nat, mtu: nat)
    requires Working(tx, mtu) && (previous ==> tx.epoch >= 1) && n < 0x100_0000
    requires mtu >= HM_HEADER_LENGTH + 1 + MaxSealOverhead(tx, previous)
    requires Min(HM_HEADER_LENGTH + n, mtu - MaxSealOverhead(tx, previous)) < 0x8000
    ensures var m := SizedOut(n, tx.EpochFor(previous));
      && !m.isCcs && Ready(OneMessage(tx, m), mtu)
      && LongestText(OneMessage(tx, m), m, mtu) ==
           Min(HM_HEADER_LENGTH + n, mtu - MaxSealOverhead(tx, previous))
  {
    hide WholeMessage, NeverFails, Pow256;
    var m := SizedOut(n, tx.EpochFor(previous));
    var s := OneMessage(tx, m);
    WholeMessageIsRaw(m.data, Sized(n));
    assert UsesPrevious(s, m) == previous;
    assert |m.data| == HM_HEADER_LENGTH + n;
    assert Units(s.msgs, Cursor(1, 0)) == 0 && Units(s.msgs, At(s)) == 1 + |m.data|;
    assert CanGo(s, m, mtu);
    assert Sendable(s, mtu);
    assert RoomToCount(tx, Units(s.msgs, At(s)));
  }

  /** The packet sizes safe for every flight are exactly those that leave no more room than a record may hold. */
  lemma SafeMtuExactly(tx: Tx, mtu: nat)
    requires Working(tx, mtu)
    ensures SafeMtu(tx, mtu) <==> forall s: Sender | s.tx == tx && s.Valid() :: NoneOverflows(Sent(s, mtu))
  {
    hide NeverFails, Pow256, Sent, NoneOverflows, WholeMessage;
    if SafeMtu(tx, mtu) {
      forall s: Sender | s.tx == tx && s.Valid()
        ensures NoneOverflows(Sent(s, mtu))
      {
        SentSafe(s, mtu);
      }
    } else {
      var previous := mtu <= MAX_PLAIN_LENGTH + MaxSealOverhead(tx, false);
      var m := SizedOut(MAX_PLAIN_LENGTH, tx.EpochFor(previous));
      SizedIsReady(tx, previous, MAX_PLAIN_LENGTH, mtu);
      OneMessageOverflowsExactly(tx, m, mtu);
      ReadyIsValid(OneMessage(tx, m), mtu);
      assert !NoneOverflows(Sent(OneMessage(tx, m), mtu));
    }
  }

  lemma SentSafe(s: Sender, mtu: nat)
    requires s.Valid() && SafeMtu(s.tx, mtu)
    ensures NoneOverflows(Sent(s, mtu))
  {
    hide SealedUnder, SendPackets, Flatten;
    SendPacketsCut(s, mtu, TAKES_ALL, 0, 1);
    var recs := Sent(s, mtu);
    forall i | 0 <= i < |recs|
      ensures !Overflows(recs[i])
    {
      assert Cut(s.tx, recs[i], mtu);
    }
  }

  // ----- A packet size under which a connection breaks -----

  const NULL_TX := Tx(0, 0, DtlsNonces.NULL_CIPHER, 0, DtlsNonces.NULL_CIPHER)

  /** The record ends a new connection that takes messages of up to `maxMessageLen` bytes. */
  ghost predicate EndsNewConnection(rec: Rec, maxMessageLen: nat)
    requires rec.Fits()
  {
    var r := Start(DtlsNonces.NULL_CIPHER, maxMessageLen).r;
    r.Ring() && OpenHandshake(r, rec.Wire()).result == ReadError(RecordOverflow)
  }

  /** Sent by itself, a message of `n` bytes gets out, and its first record ends a new connection. */
  ghost predicate BreaksConnection(n: nat, mtu: nat)
    requires n < 0x100_0000
  {
    var s := OneMessage(NULL_TX, SizedOut(n, 0));
    && s.Valid() && SendPackets(s, mtu, TAKES_ALL, 0, 1).result == FlightSent
    && Sent(s, mtu) != [] && Sent(s, mtu)[0].Fits() && EndsNewConnection(Sent(s, mtu)[0], MAX_PLAIN_LENGTH)
  }

  /** One byte more than a record holds, and a packet just large enough for it. */
  const BIG_BODY := MAX_PLAIN_LENGTH - HM_HEADER_LENGTH + 1
  const BIG_MTU := MAX_PLAIN_LENGTH + 1 + RT_HEADER_LENGTH

  lemma NullIsWorking(mtu: nat)
    ensures Working(NULL_TX, mtu) && MaxSealOverhead(NULL_TX, false) == RT_HEADER_LENGTH
  {
    hide Pow256, NeverFails;
    ManyNumbers();
    NullNeverFails(mtu);
    RoomAtStart(NULL_TX);
  }

  lemma NullNeverFails(mtu: nat)
    ensures NeverFails(DtlsNonces.NULL_CIPHER, mtu)
  {
  }

  lemma RoomAtStart(tx: Tx)
    requires tx.seqNum == 0 && tx.lastSeqNum == 0 && Pow256(6) > 0x300_0000
    ensures RoomToCount(tx, 0x200_0000)
  {
    hide Pow256;
  }

  lemma ManyNumbers()
    ensures Pow256(6) > 0x300_0000
  {
    assert Pow256(2) == 0x1_0000 && Pow256(3) == 0x100_0000 && Pow256(4) == 0x1_0000_0000;
    Pow256Grows(4, 6);
  }

  lemma {:induction false} Pow256Grows(a: nat, b: nat)
    requires a <= b
    ensures Pow256(a) <= Pow256(b)
  {
    if a < b {
      Pow256Grows(a, b - 1);
    }
  }

  /**
   Under the cipher of a new connection, a message below the usual limit of 2^14 bytes goes out at this packet size as a
   record that ends the connection of the receiver.
   */
  lemma BigPacketBreaksConnection()
    ensures BIG_BODY < MAX_PLAIN_LENGTH && BreaksConnection(BIG_BODY, BIG_MTU)
  {
    hide BreaksConnection;
    BigMessageBreaks(BIG_BODY, BIG_MTU);
  }

  lemma OneMessageGoesOut(tx: Tx, n: nat, mtu: nat)
    requires Working(tx, mtu) && n < 0x100_0000 && mtu >= HM_HEADER_LENGTH + 1 + MaxSealOverhead(tx, false)
    requires Min(HM_HEADER_LENGTH + n, mtu - MaxSealOverhead(tx, false)) < 0x8000
    ensures var s := OneMessage(tx, SizedOut(n, tx.epoch));
      && s.Valid() && SendPackets(s, mtu, TAKES_ALL, 0, 1).result == FlightSent
      && Sent(s, mtu) != [] && Cut(tx, Sent(s, mtu)[0], mtu)
      && |Sent(s, mtu)[0].plaintext| == Min(HM_HEADER_LENGTH + n, mtu - MaxSealOverhead(tx, false))
  {
    hide WholeMessage, SendPackets, Flatten, Ready, Steps, SizedOut, LongestText, Within, Working;
    var m := SizedOut(n, tx.epoch);
    var s := OneMessage(tx, m);
    SizedIsReady(tx, false, n, mtu);
    ReadyIsValid(s, mtu);
    FlightGoesOut(s, mtu, TAKES_ALL, 0, 1);
    FirstRecord(tx, m, mtu);
    SendPacketsCut(s, mtu, TAKES_ALL, 0, 1);
  }

  /** So for every message that is too long for one record, and every packet size that leaves room for one too long. */
  lemma BigMessageBreaks(n: nat, mtu: nat)
    requires MAX_PLAIN_LENGTH < HM_HEADER_LENGTH + n && n < 0x100_0000
    requires MAX_PLAIN_LENGTH + RT_HEADER_LENGTH < mtu <= MAX_ENCRYPTED_LENGTH + RT_HEADER_LENGTH
    ensures BreaksConnection(n, mtu)
  {
    hide SendPackets, SizedOut, Sent, Within, EndsNewConnection, Working, MaxSealOverhead, Sender.Valid, Rec.Fits;
    NullIsWorking(mtu);
    OneMessageGoesOut(NULL_TX, n, mtu);
    NullOverflowBreaks(Sent(OneMessage(NULL_TX, SizedOut(n, 0)), mtu)[0], mtu);
  }

  /** A record that overflows and is not discarded ends the connection of any receiver with its key. */
  lemma OverflowEnds(r: Receiver, tx: Tx, previous: bool, rec: Rec)
    requires r.Ring() && SharedKey(r.rx, tx, previous) && !r.rx.closed && SealedUnder(rec, tx, previous)
    requires Overflows(rec) && |rec.ciphertext| <= MAX_ENCRYPTED_LENGTH && !r.rx.window.ShouldDiscard(Number(rec))
    ensures OpenHandshake(r, rec.Wire()).result == ReadError(RecordOverflow)
  {
    hide SharedKey, Overflows, OpenRecord, Rec.Wire, Rec.Fits, Number, Window.ShouldDiscard;
    SealedRecordOpens(r.rx, tx, previous, rec, []);
    assert rec.Wire() + [] == rec.Wire();
  }

  lemma StartIsEmpty(aead: Aead, maxMessageLen: nat)
    ensures var r := Start(aead, maxMessageLen).r;
      r.Ring() && !r.rx.closed && r.rx.window == EMPTY_WINDOW && r.rx.epoch == 0 && r.rx.aead == aead
  {
  }

  lemma NullShares(maxMessageLen: nat)
    ensures var r := Start(DtlsNonces.NULL_CIPHER, maxMessageLen).r;
      r.Ring() && SharedKey(r.rx, NULL_TX, false) && !r.rx.closed && r.rx.window == EMPTY_WINDOW
  {
    hide Pow256, Start, Receiver.Ring, Aead.Sound;
    ManyNumbers();
    StartIsEmpty(DtlsNonces.NULL_CIPHER, maxMessageLen);
    DtlsNonces.NullCipherIsSound();
  }

  lemma NullOverflowBreaks(rec: Rec, mtu: nat)
    requires Cut(NULL_TX, rec, mtu) && Overflows(rec) && mtu <= MAX_ENCRYPTED_LENGTH + RT_HEADER_LENGTH
    ensures EndsNewConnection(rec, MAX_PLAIN_LENGTH)
  {
    hide SharedKey, SealedUnder, Overflows, OpenHandshake, Rec.Wire, Number, Window.ShouldDiscard, Start,
      Receiver.Ring, MaxSealOverhead;
    NullShares(MAX_PLAIN_LENGTH);
    NothingSeen(Number(rec));
    OverflowEnds(Start(DtlsNonces.NULL_CIPHER, MAX_PLAIN_LENGTH).r, NULL_TX, false, rec);
  }

  lemma NothingSeen(n: nat)
    ensures !EMPTY_WINDOW.ShouldDiscard(n)
  {
    if n == 0 {
      NoBits();
    }
  }

  lemma NoBits()
    ensures !BitAt(0, 0 as bv6)
  {
  }

  // ----- Sender and receiver, by the packet sizes -----

  /**
   A record of some transmission of some flight that the receiver hears: it may have been interrupted and resumed, each
   time with another packet size, as long as these are safe or the messages short. A ChangeCipherSpec comes before the
   first key.
   */
  ghost predicate SentSafely(r: Receiver, msgs: seq<Message>, s: Sender, previous: bool, attempts: seq<Attempt>,
      rec: Rec)
  {
    && s.Valid() && Carries(s.msgs, msgs) && Hears(r, s, previous) && rec in Flatten(SendAll(s, attempts).packets)
    && rec.epoch == r.rx.epoch && (rec.typ == RT_CHANGE_CIPHER_SPEC ==> r.rx.aead.isNull)
    && ((forall i | 0 <= i < |attempts| :: SafeMtu(s.tx, attempts[i].mtu)) || MessagesAreShort(s.msgs))
  }

  /** The cipher adds no more than the record format provides for. */
  predicate ModestOverhead(aead: Aead) { aead.MaxOverhead() <= MAX_ENCRYPTED_LENGTH - MAX_PLAIN_LENGTH }

  lemma SentSafelyIsFine(r: Receiver, msgs: seq<Message>, s: Sender, previous: bool, attempts: seq<Attempt>, rec: Rec)
    requires SentSafely(r, msgs, s, previous, attempts, rec) && ModestOverhead(r.rx.aead)
    ensures Receivable(r, msgs, rec) && Survived(r.rx.aead, rec)
  {
    hide WholeMessage, SendAll, Flatten, Steps, Rec.Wire, SafeMtu, Sequence;
    var recs := Flatten(SendAll(s, attempts).packets);
    var i: nat :| i < |recs| && recs[i] == rec;
    if MessagesAreShort(s.msgs) {
      ShortMessagesNeverOverflow(s, attempts);
    } else {
      SafeMtuNeverOverflows(s, attempts);
    }
    SendAllCut(s, attempts, Largest(attempts));
    SharedEpoch(r.rx, s.tx, previous);
    KeyOfEpoch(s.tx, rec, previous, Largest(attempts));
    ModestIsParsed(r.rx, s.tx, previous, rec);
    SentIsReceivable(r, msgs, s, previous, attempts, i, []);
    InterruptedFlightTiles(s, attempts);
    var d := StepAt(s.msgs, At(s), recs, i);
    StepTyp(s.msgs, d, rec);
  }

  lemma ModestIsParsed(rx: Rx, tx: Tx, previous: bool, rec: Rec)
    requires SharedKey(rx, tx, previous) && SealedUnder(rec, tx, previous) && ModestOverhead(rx.aead) && !Overflows(rec)
    ensures |rec.ciphertext| <= MAX_ENCRYPTED_LENGTH
  {
    hide Sequence;
  }

  /** Application data, sealed under a key in use that the receiver has. */
  ghost predicate DataInUse(r: Receiver, tx: Tx, previous: bool, rec: Rec) {
    && SharedKey(r.rx, tx, previous) && !r.rx.closed && SealedUnder(rec, tx, previous) && !r.rx.aead.isNull
    && rec.typ == RT_APPLICATION_DATA && !Overflows(rec)
  }

  lemma DataIsFine(r: Receiver, msgs: seq<Message>, tx: Tx, previous: bool, rec: Rec)
    requires DataInUse(r, tx, previous, rec) && ModestOverhead(r.rx.aead)
    ensures Receivable(r, msgs, rec) && Survived(r.rx.aead, rec)
  {
    hide SharedKey, SealedUnder, Overflows, ModestOverhead;
    ModestIsParsed(r.rx, tx, previous, rec);
    assert Comes(r, msgs, tx, previous, [], Cursor(0, 0), rec);
  }

  /** The record was sent safely, with a flight, or is application data under a key in use. */
  ghost predicate Safe(r: Receiver, msgs: seq<Message>, rec: Rec) {
    || (exists s, previous, attempts :: SentSafely(r, msgs, s, previous, attempts, rec))
    || (exists tx, previous :: DataInUse(r, tx, previous, rec))
  }

  /** So were all records delivered. */
  ghost predicate AllSentSafely(r: Receiver, msgs: seq<Message>, recs: seq<Rec>, schedule: seq<Delivery>) {
    forall j | 0 <= j < |schedule| && schedule[j].Delivery? ::
      schedule[j].index < |recs| && Safe(r, msgs, recs[schedule[j].index])
  }

  lemma SafeIsFine(r: Receiver, msgs: seq<Message>, rec: Rec)
    requires Safe(r, msgs, rec) && ModestOverhead(r.rx.aead)
    ensures Receivable(r, msgs, rec) && Survived(r.rx.aead, rec)
  {
    hide SentSafely, DataInUse, Receivable, Survived, ModestOverhead;
    if s, previous, attempts :| SentSafely(r, msgs, s, previous, attempts, rec) {
      SentSafelyIsFine(r, msgs, s, previous, attempts, rec);
    } else {
      var tx, previous :| DataInUse(r, tx, previous, rec);
      DataIsFine(r, msgs, tx, previous, rec);
    }
  }

  lemma AllSentSafelyIsFine(r: Receiver, msgs: seq<Message>, recs: seq<Rec>, seen: set<nat>, schedule: seq<Delivery>)
    requires (forall i | 0 <= i < |recs| :: recs[i].Fits())
    requires AllSentSafely(r, msgs, recs, schedule) && ModestOverhead(r.rx.aead)
    ensures AllReceivable(r, msgs, recs, schedule) && Harmless(r.rx.aead, recs, seen, schedule)
  {
    hide Safe, Receivable, Survived, Number, Rec.Fits, ModestOverhead;
    forall j | 0 <= j < |schedule| && schedule[j].Delivery?
      ensures Receivable(r, msgs, recs[schedule[j].index]) && Survived(r.rx.aead, recs[schedule[j].index])
    {
      SafeIsFine(r, msgs, recs[schedule[j].index]);
    }
  }

  /**
   End to end, from the flights and the packet sizes: records of any number of transmissions of any flights under
   packet sizes that are safe, or of messages that are short, mixed with application data under a key in use, do not end
   the connection, and as soon as each byte of the next `k` messages has come, they are handed out, in order.
   */
  lemma SafeFlightSurvivesChannel(c: Conn, msgs: seq<Message>, recs: seq<Rec>, seen: set<nat>,
      schedule: seq<Delivery>, k: nat)
    requires Invariant(c, msgs) && !c.r.hasMessage && OneNumberEach(recs) && Remembers(c, recs, seen)
    requires AllSentSafely(c.r, msgs, recs, schedule) && ModestOverhead(c.r.rx.aead)
    requires Playable(c.r, recs, schedule) && OnTime(recs, seen, schedule)
    requires forall n | c.r.readSeq <= n < c.r.readSeq + k :: Completed(c.log, recs, schedule, msgs, n)
    ensures var events := Arrivals(c.r, recs, schedule);
      && HonestRun(c, events, msgs) && CleanRun(c, events, msgs)
      && var t := Run(c, events, msgs);
         && HonestRun(t, Drain(k), msgs)
         && c.r.readSeq + k <= |msgs| && Run(t, Drain(k), msgs).out == msgs[..c.r.readSeq + k]
  {
    hide Invariant, AllReceivable, AllSentSafely, Harmless, Remembers, Number, Arrivals, HonestRun, Run, CleanRun,
      OnTime, Completed, Playable;
    AllSentSafelyIsFine(c.r, msgs, recs, seen, schedule);
    FlightSurvivesChannel(c, msgs, recs, seen, schedule, k);
  }

  // ----- Where a record would be too long to be sealed -----

  /** A cipher that never fails and always adds as much as it may. */
  ghost predicate AddsAll(aead: Aead) {
    forall typ: Byte, version: nat, number: Bytes, text: Bytes {:trigger aead.seal(typ, version, number, text)} ::
      && aead.seal(typ, version, number, text).Some?
      && |aead.seal(typ, version, number, text).value| == |text| + aead.MaxOverhead()
  }

  /** A flight of one message goes out exactly if the packet size does not make its first record 2^16 bytes long. */
  lemma OneMessageGoesOutExactly(tx: Tx, m: OutMsg, mtu: nat)
    requires OneMessage(tx, m).Valid() && !m.isCcs && m.epoch == tx.epoch && CanBeCut(OneMessage(tx, m), m, mtu)
    requires AddsAll(tx.aead) && (tx.epoch >= 1 ==> AddsAll(tx.lastAead)) && RoomToCount(tx, 1 + |m.data|)
    ensures var s := OneMessage(tx, m);
      SendPackets(s, mtu, TAKES_ALL, 0, 1).result == FlightSent <==>
        LongestText(s, m, mtu) + tx.aead.MaxOverhead() < 0x1_0000
  {
    hide WholeMessage, FragmentText, Pow256, LongestText, Sequence;
    var s := OneMessage(tx, m);
    if LongestText(s, m, mtu) + tx.aead.MaxOverhead() < 0x1_0000 {
      assert Units(s.msgs, Cursor(1, 0)) == 0 && Units(s.msgs, At(s)) == 1 + |m.data|;
      assert CanGo(s, m, mtu);
      assert Sendable(s, mtu) && Ready(s, mtu);
      FlightGoesOut(s, mtu, TAKES_ALL, 0, 1);
    } else {
      TooLongFails(s, m, mtu);
    }
  }

  lemma TooLongFails(s: Sender, m: OutMsg, mtu: nat)
    requires s.Valid() && s.msgs == [m] && s.written == 0 && s.offset == 0 && !m.isCcs && m.epoch == s.tx.epoch
    requires CanBeCut(s, m, mtu) && AddsAll(s.tx.aead)
    requires LongestText(s, m, mtu) + s.tx.aead.MaxOverhead() >= 0x1_0000
    ensures SendPackets(s, mtu, TAKES_ALL, 0, 1).result == SealFailed
  {
    hide WholeMessage, FragmentText, Pow256, Sequence, SendPackets, Pack, Rec.Fits, Rec.Wire;
    var whole := WholeMessage(m.data).value;
    var room := mtu - HM_HEADER_LENGTH - MaxSealOverhead(s.tx, UsesPrevious(s, m));
    FragmentTextLength(whole, 0, Min(|whole.body|, room));
    assert SealNext(s, mtu).1 == SealError;
    PackStep(s, mtu);
    SendStep(s, mtu, TAKES_ALL, 0, 1);
  }

  // ----- A failed seal that loses a record -----

  /** Two ChangeCipherSpecs, with one number of the epoch left to seal under. */
  lemma LastNumberLosesRecord(tx: Tx, mtu: nat)
    requires tx.Fits() && AddsAll(tx.aead) && 1 + tx.aead.MaxOverhead() < 0x1_0000
    requires tx.seqNum + 2 == Pow256(6) && mtu >= 2 * (1 + MaxSealOverhead(tx, false))
    ensures var m := OutMsg([], tx.epoch, true);
      var s := Sender(tx, 0, [m, m], 0, 0, true);
      && s.Valid() && SendPackets(s, mtu, TAKES_ALL, 0, 1).result == SealFailed
      && Lost(s, mtu, TAKES_ALL, 0) != [] && SendPackets(s, mtu, TAKES_ALL, 0, 1).packets == []
  {
    hide Pow256, Sequence, AddsAll, SendPackets, Pack, Rec.Fits, Rec.Wire, BodyLeft;
    var m := OutMsg([], tx.epoch, true);
    var s := Sender(tx, 0, [m, m], 0, 0, true);
    CcsSeals(s, mtu);
    PackStep(s, mtu);
    var (t, result) := SealNext(s, mtu);
    var next, left := t.(written := 1), mtu - |result.rec.Wire()|;
    CcsSeals(next, left);
    PackStep(next, left);
    SendStep(s, mtu, TAKES_ALL, 0, 1);
  }

  lemma CcsSeals(s: Sender, maxOut: nat)
    requires s.tx.Fits() && s.written < |s.msgs| && AddsAll(s.tx.aead) && 1 + s.tx.aead.MaxOverhead() < 0x1_0000
    requires s.msgs[s.written].isCcs && s.msgs[s.written].epoch == s.tx.epoch
    requires maxOut >= 1 + MaxSealOverhead(s.tx, false)
    ensures var (t, result) := SealNext(s, maxOut);
      if s.tx.seqNum + 1 == Pow256(6) then result == SealError
      else
        && result.SealSuccess? && result.rec.Fits() && |result.rec.Wire()| == 1 + MaxSealOverhead(s.tx, false)
        && t == s.(tx := s.tx.(seqNum := s.tx.seqNum + 1))
  {
    hide Pow256, Sequence, Rec.Wire;
    var number := Sequence(s.tx.epoch, s.tx.seqNum);
    var ct := s.tx.aead.seal(RT_CHANGE_CIPHER_SPEC, s.tx.aead.recordVersion, number, [MT_CCS]);
    assert ct.Some? && |ct.value| == 1 + s.tx.aead.MaxOverhead();
    if s.tx.seqNum + 1 < Pow256(6) {
      SmallMod(s.tx.seqNum + 1, Pow256(6));
    }
  }
}
