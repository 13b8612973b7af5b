/**
 Sender and receiver joined: what becomes of the records of a flight at the receiver, and that a flight is handed out in
 full once all of it has come, whatever the packet sizes, the order and the repetitions, and whatever else of the
 same key comes between, unless a record is among it that ends the connection.
 */
module DtlsDelivery {
  import opened Wrappers
  import opened DtlsWire
  import opened DtlsReassembly
  import opened DtlsReplay
  import opened DtlsRecord
  import opened DtlsSender
  import opened DtlsReceiver
  import opened DtlsEndToEnd

  // ----- What a flight carries -----

  /** The handshake messages of the flight are messages of the sender's list. */
  predicate Carries(flight: seq<OutMsg>, msgs: seq<Message>) {
    forall i | 0 <= i < |flight| && !flight[i].isCcs :: Carried(flight[i], msgs)
  }

  predicate Carried(m: OutMsg, msgs: seq<Message>) {
    && WholeMessage(m.data).Some?
    && WholeMessage(m.data).value.seqNum < |msgs|
    && WholeMessage(m.data).value == msgs[WholeMessage(m.data).value.seqNum]
  }

  /** The fragment of `m` that starts at `off` and is `len` bytes long. */
  function FragmentOf(m: Message, off: nat, len: nat): Parsed
    requires m.Fits() && off + len <= |m.body|
  {
    Parsed(HmHeader(m.typ, |m.body|, m.seqNum, off, len), m.body[off..off + len], [])
  }

  lemma ParseFragmentText(m: Message, off: nat, len: nat)
    requires m.Fits() && off + len <= |m.body|
    ensures ParseFragment(FragmentText(m, off, len)) == Some(FragmentOf(m, off, len))
  {
    hide ParseFragment, SerializeFragment;
    var h := HmHeader(m.typ, |m.body|, m.seqNum, off, len);
    ParseSerialized(h, m.body[off..off + len], []);
    assert FragmentText(m, off, len) == SerializeFragment(h, m.body[off..off + len]) + [];
  }

  /** Every record the sender packs is an honest one. */
  lemma SentTextIsHonest(flight: seq<OutMsg>, msgs: seq<Message>, c: Cursor, rec: Rec)
    requires Numbered(msgs) && Carries(flight, msgs) && Step(flight, c, rec).Some? && rec.typ == RT_HANDSHAKE
    ensures HonestText(rec.plaintext, msgs)
  {
    hide WholeMessage, ParseFragment, FragmentText;
    var m := WholeMessage(flight[c.written].data).value;
    var len := |rec.plaintext| - HM_HEADER_LENGTH;
    assert Carried(flight[c.written], msgs);
    ParseFragmentText(m, c.offset, len);
    assert HonestText([], msgs);
  }

  // ----- A record across the wire -----

  /** Reader and writer share the key of the record's epoch and agree on the version. */
  ghost predicate SharedKey(rx: Rx, tx: Tx, previous: bool) {
    && tx.Fits() && (previous ==> tx.epoch >= 1)
    && rx.epoch == tx.EpochFor(previous) && rx.aead == tx.AeadFor(previous) && rx.aead.Sound()
    && IsVersion(rx.aead, tx.aead.recordVersion)
  }

  /** The version of the key, or before the first key any of DTLS. */
  predicate IsVersion(aead: Aead, version: nat) {
    && (!aead.isNull ==> version == aead.recordVersion)
    && (aead.isNull ==> version / 0x100 == DTLS1_VERSION_MAJOR)
  }

  function Number(rec: Rec): nat
    requires rec.Fits()
  {
    BigEndian(Sequence(rec.epoch, rec.seqNum))
  }

  /** The record opens to more than a record may hold. */
  predicate Overflows(rec: Rec) { |rec.plaintext| > MAX_PLAIN_LENGTH }

  /**
   What becomes of a sealed record, followed by anything in its packet. With too long a ciphertext, all of the packet is
   dropped; a record seen or stale is dropped alone; one that overflows ends the connection; any other opens to its
   plaintext, and no more of the packet is used up than the record.
   */
  lemma SealedRecordOpens(rx: Rx, tx: Tx, previous: bool, rec: Rec, rest: Bytes)
    requires SharedKey(rx, tx, previous) && SealedUnder(rec, tx, previous) && !rx.closed
    ensures var o := OpenRecord(rx, rec.Wire() + rest);
      if |rec.ciphertext| > MAX_ENCRYPTED_LENGTH then o == OpenOutcome(rx, Discarded, |rec.Wire() + rest|)
      else
        && o.consumed == |rec.Wire()|
        && (if rx.window.ShouldDiscard(Number(rec)) then o.result == Discarded && o.rx == rx
            else if Overflows(rec) then o.result == Failed(RecordOverflow) && o.rx == rx
            else
              var seen := rx.(window := rx.window.Record(Number(rec)));
              if rec.typ == RT_ALERT then (o.rx, o.result) == ProcessAlert(seen, rec.plaintext)
              else o.result == Opened(rec.typ, rec.plaintext) && o.rx == seen.(warnings := 0))
  {
    hide Window.ShouldDiscard, Window.Record, ParseRecord, Rec.Wire, PutBigEndian, BigEndian, ProcessAlert;
    if |rec.ciphertext| > MAX_ENCRYPTED_LENGTH {
      LongWireFails(rec, rest);
    } else {
      ParseWire(rec, rest);
      U16RoundTrip(rec.epoch);
      assert Sequence(rec.epoch, rec.seqNum)[..2] == PutU16(rec.epoch);
    }
  }

  lemma LongWireFails(rec: Rec, rest: Bytes)
    requires rec.Fits() && |rec.ciphertext| > MAX_ENCRYPTED_LENGTH
    ensures rec.Wire() + rest != [] && ParseRecord(rec.Wire() + rest) == None
  {
    hide PutBigEndian;
    var b := rec.Wire() + rest;
    assert b[11..13] == PutU16(|rec.ciphertext|);
    U16RoundTrip(|rec.ciphertext|);
  }

  // ----- A fragment is taken -----

  predicate Logged(log: seq<Parsed>, p: Parsed) {
    exists j :: 0 <= j < |log| && log[j].hdr == p.hdr && log[j].body == p.body
  }

  /** A message whose fragments the receiver takes, or ignores because it is done with the message. */
  predicate Welcome(r: Receiver, m: Message) {
    && m.seqNum < r.readSeq + MAX_HANDSHAKE_FLIGHT && |m.body| <= r.maxMessageLen
    && (r.rx.epoch == 1 ==> m.seqNum == r.readSeq)
  }

  /** A fragment of a welcome message, in a record of its own, is taken and logged; one of an old message is ignored. */
  lemma FragmentIsTaken(r: Receiver, msgs: seq<Message>, log: seq<Parsed>, m: Message, off: nat, len: nat)
    requires Explained(r, msgs, log) && m.Fits() && m.seqNum < |msgs| && msgs[m.seqNum] == m
    requires off + len <= |m.body| && Welcome(r, m)
    ensures ProcessFragments(r, FragmentText(m, off, len)).FragOk?
    ensures Applied(r, FragmentText(m, off, len)) == if m.seqNum < r.readSeq then [] else [FragmentOf(m, off, len)]
  {
    hide Expected, NewFrag, Frag.Put, Frag.Complete, ParseFragment, Applied, ProcessFragments;
    ParseFragmentText(m, off, len);
    var p := FragmentOf(m, off, len);
    ExpectedSnoc(msgs, log, p);
    if m.seqNum >= r.readSeq {
      assert r.Slot(m.seqNum) == Expected(msgs, log, m.seqNum);
    }
    assert ProcessFragment(r, p.hdr, p.body).FragOk?;
    AppliedSingle(r, FragmentText(m, off, len), p);
  }

  lemma AppliedSingle(r: Receiver, text: Bytes, p: Parsed)
    requires r.Ring() && ParseFragment(text) == Some(p) && p.rest == []
    requires ProcessFragment(r, p.hdr, p.body).FragOk?
    ensures Applied(r, text) == if InWindow(r, p.hdr.seqNum) then [p] else []
    ensures ProcessFragments(r, text).FragOk?
  {
    hide ProcessFragment, ParseFragment;
    if text == [] {
      NothingParses();
    }
    var r' := ProcessFragment(r, p.hdr, p.body).r;
    assert Applied(r', []) == [] && ProcessFragments(r', []).FragOk?;
  }

  lemma NothingParses()
    ensures ParseFragment([]).None?
  {
  }

  // ----- A record is taken -----

  /** The record carries a fragment of message `n`, and byte `i` of it if it has one. */
  predicate CarriesByte(rec: Rec, n: nat, i: nat) {
    && rec.typ == RT_HANDSHAKE && ParseFragment(rec.plaintext).Some?
    && var p := ParseFragment(rec.plaintext).value;
       p.hdr.seqNum == n && (i < p.hdr.msgLen ==> p.hdr.fragOff <= i < p.hdr.fragOff + |p.body|)
  }

  /** If the record holds a fragment of a message that is not read yet, it is in the log. */
  predicate Taken(c: Conn, rec: Rec) {
    rec.typ == RT_HANDSHAKE ==>
      && ParseFragment(rec.plaintext).Some?
      && (ParseFragment(rec.plaintext).value.hdr.seqNum >= c.r.readSeq ==>
            Logged(c.log, ParseFragment(rec.plaintext).value))
  }

  /**
   One record sealed under a key the receiver has: of a flight, at whatever point of it and cut to whatever size, and of
   a message the receiver takes or is done with; or a record of another type, with any text, such as application data
   that overtakes the flight. With too long a ciphertext it is noise.
   */
  ghost predicate Comes(r: Receiver, msgs: seq<Message>, tx: Tx, previous: bool, flight: seq<OutMsg>, d: Cursor,
      rec: Rec)
  {
    && SharedKey(r.rx, tx, previous) && !r.rx.closed
    && SealedUnder(rec, tx, previous) && |rec.ciphertext| <= MAX_ENCRYPTED_LENGTH
    && (if rec.typ == RT_HANDSHAKE then
          Carries(flight, msgs) && Step(flight, d, rec).Some? && Welcome(r, WholeMessage(flight[d.written].data).value)
        else rec.typ != RT_ALERT)
  }

  /**
   The records a connection survives: no text longer than a record may hold; application data only under a key, where
   it may overtake the peer's Finished; a ChangeCipherSpec only before the first key, and with its one content.
   */
  predicate Survived(aead: Aead, rec: Rec) {
    && !Overflows(rec)
    && (|| rec.typ == RT_HANDSHAKE
        || (rec.typ == RT_APPLICATION_DATA && !aead.isNull)
        || (rec.typ == RT_CHANGE_CIPHER_SPEC && aead.isNull && rec.plaintext == [MT_CCS]))
  }

  /** The alert with which any other record ends it. */
  function Reason(aead: Aead, rec: Rec): Alert {
    if Overflows(rec) then RecordOverflow
    else if rec.typ == RT_CHANGE_CIPHER_SPEC && aead.isNull then IllegalParameter
    else UnexpectedMessage
  }

  /** What a record other than of the handshake does. */
  ghost predicate PassesBy(r: Receiver, rec: Rec, o: ReadOutcome)
    requires rec.Fits()
  {
    var seen := r.rx.(window := r.rx.window.Record(Number(rec)), warnings := 0);
    && o.r == r.(rx := seen, hasCcs := r.hasCcs || (rec.typ == RT_CHANGE_CIPHER_SPEC && Survived(r.rx.aead, rec)))
    && o.result ==
         if !Survived(r.rx.aead, rec) then ReadError(Reason(r.rx.aead, rec))
         else if rec.typ == RT_APPLICATION_DATA then ReadDiscard
         else ReadSuccess
  }

  /**
   A record that is not of the handshake, authentic and new, leaves all messages as they are. Its number is recorded, a
   ChangeCipherSpec is remembered, application data under a key is dropped, and any other ends the connection.
   */
  lemma AsideIsPassedOver(r: Receiver, tx: Tx, previous: bool, rec: Rec, rest: Bytes)
    requires r.Ring() && SharedKey(r.rx, tx, previous) && SealedUnder(rec, tx, previous) && !r.rx.closed
    requires |rec.ciphertext| <= MAX_ENCRYPTED_LENGTH && !Overflows(rec) && !r.rx.window.ShouldDiscard(Number(rec))
    requires rec.typ != RT_HANDSHAKE && rec.typ != RT_ALERT
    ensures var o := OpenHandshake(r, rec.Wire() + rest); PassesBy(r, rec, o) && o.consumed == |rec.Wire()|
  {
    hide OpenRecord, Rec.Wire, Number, Window.ShouldDiscard, Window.Record, SharedKey, SealedUnder, Overflows,
      Receiver.Ring, ProcessFragments;
    SealedRecordOpens(r.rx, tx, previous, rec, rest);
  }

  /** The two receivers differ in their buffers, their replay windows and a pending ChangeCipherSpec only. */
  ghost predicate SameSetting(r: Receiver, t: Receiver) {
    && t.readSeq == r.readSeq && t.maxMessageLen == r.maxMessageLen && t.hasMessage == r.hasMessage
    && t.rx.epoch == r.rx.epoch && t.rx.aead == r.rx.aead && t.rx.closed == r.rx.closed
  }

  /** The record reader accepts the input or ignores it; the connection goes on. */
  predicate Clean(c: Conn, e: Event) {
    c.r.Ring() && e.Arrive? && OpenHandshake(c.r, e.input).result in {ReadSuccess, ReadDiscard}
  }

  lemma StepTyp(flight: seq<OutMsg>, d: Cursor, rec: Rec)
    requires Step(flight, d, rec).Some?
    ensures d.written < |flight|
    ensures if flight[d.written].isCcs then rec.typ == RT_CHANGE_CIPHER_SPEC && rec.plaintext == [MT_CCS]
      else rec.typ == RT_HANDSHAKE && WholeMessage(flight[d.written].data).Some?
  {
    hide WholeMessage, FragmentText;
  }

  /** The fragment in a welcome handshake record is taken. */
  lemma RecordIsTaken(r: Receiver, msgs: seq<Message>, log: seq<Parsed>, flight: seq<OutMsg>, d: Cursor, rec: Rec)
    requires Explained(r, msgs, log) && Carries(flight, msgs)
    requires Step(flight, d, rec).Some? && rec.typ == RT_HANDSHAKE
    requires WholeMessage(flight[d.written].data).Some? && Welcome(r, WholeMessage(flight[d.written].data).value)
    ensures ProcessFragments(r, rec.plaintext).FragOk? && ParseFragment(rec.plaintext).Some?
    ensures var p := ParseFragment(rec.plaintext).value;
      p.hdr.seqNum >= r.readSeq ==> Logged(log + Applied(r, rec.plaintext), p)
  {
    hide WholeMessage, FragmentText, Explained, Applied, ProcessFragments, ParseFragment, Welcome;
    ExplainedRing(r, msgs, log);
    StepTyp(flight, d, rec);
    assert Carried(flight[d.written], msgs);
    var m := WholeMessage(flight[d.written].data).value;
    var len := |rec.plaintext| - HM_HEADER_LENGTH;
    FragmentIsTaken(r, msgs, log, m, d.offset, len);
    ParseFragmentText(m, d.offset, len);
    if m.seqNum >= r.readSeq {
      assert (log + Applied(r, rec.plaintext))[|log|] == FragmentOf(m, d.offset, len);
    }
  }

  /**
   What one delivery does: a record that is discarded leaves all as it is, one that the connection does not survive ends
   it and leaves the messages as they are, and of any other the number is recorded and the fragment is taken. Only a
   handshake record touches the buffers, and only a new ChangeCipherSpec is noted as one.
   */
  lemma DeliverOne(c: Conn, msgs: seq<Message>, tx: Tx, previous: bool, flight: seq<OutMsg>, d: Cursor, rec: Rec,
      rest: Bytes)
    requires Invariant(c, msgs) && Comes(c.r, msgs, tx, previous, flight, d, rec)
    ensures var e := Arrive(rec.Wire() + rest);
      && Allowed(c, e) && HonestEvent(c, e, msgs) && c.r.Ring()
      && var t, dropped := Do(c, e), c.r.rx.window.ShouldDiscard(Number(rec));
         && Invariant(t, msgs) && SameSetting(c.r, t.r) && c.log <= t.log
         && t.r.hasCcs == (c.r.hasCcs || NewCcs(c.r.rx.aead, rec, dropped))
         && (dropped || rec.typ != RT_HANDSHAKE ==> t.r.slots == c.r.slots && t.log == c.log && t.out == c.out)
         && (if dropped then Clean(c, e) && t.r.rx.window == c.r.rx.window
             else if !Survived(c.r.rx.aead, rec) then
               OpenHandshake(c.r, e.input).result == ReadError(Reason(c.r.rx.aead, rec))
             else Clean(c, e) && t.r.rx.window == c.r.rx.window.Record(Number(rec)) && Taken(t, rec))
  {
    hide OpenRecord, Applied, ParseFragment, Explained, Window.ShouldDiscard, Window.Record, HonestText, WholeMessage,
      FragmentText, SharedKey, Overflows, Rec.Wire, Number, ProcessFragments, Step, Logged, Carries, ProcessAlert,
      Receiver.Ring;
    var input := rec.Wire() + rest;
    SealedRecordOpens(c.r.rx, tx, previous, rec, rest);
    var o := OpenRecord(c.r.rx, input);
    var r1 := c.r.(rx := o.rx);
    ExplainedSame(c.r, r1, msgs, c.log);
    ExplainedRing(r1, msgs, c.log);
    if rec.typ == RT_HANDSHAKE {
      StepTyp(flight, d, rec);
      ExplainedNumbered(r1, msgs, c.log);
      SentTextIsHonest(flight, msgs, d, rec);
      RecordIsTaken(r1, msgs, c.log, flight, d, rec);
    }
    StepInvariant(c, Arrive(input), msgs);
  }

  /** The record is a ChangeCipherSpec that is accepted. */
  predicate NewCcs(aead: Aead, rec: Rec, dropped: bool) {
    !dropped && rec.typ == RT_CHANGE_CIPHER_SPEC && Survived(aead, rec)
  }

  lemma ExplainedNumbered(r: Receiver, msgs: seq<Message>, log: seq<Parsed>)
    requires Explained(r, msgs, log)
    ensures Numbered(msgs)
  {
  }

  // ----- Any order, any repetition, any loss -----

  /**
   What comes out of the channel: one of the records, with anything behind it in the packet, or something else that
   the record layer ignores, such as a record of another epoch.
   */
  datatype Delivery = Delivery(index: nat, rest: Bytes) | Noise(input: Bytes)

  /** The record layer discards the input, whatever it has seen before. */
  ghost predicate Ignored(r: Receiver, input: Bytes) {
    forall rx: Rx | rx.epoch == r.rx.epoch && rx.aead == r.rx.aead && rx.closed == r.rx.closed ::
      OpenRecord(rx, input).result == Discarded && OpenRecord(rx, input).rx == rx
  }

  /**
   Records of another epoch are noise, and so are records that do not open under the key. No more of the packet is
   dropped than the record.
   */
  lemma ForeignIsIgnored(r: Receiver, rec: Rec, rest: Bytes)
    requires rec.Fits() && |rec.ciphertext| <= MAX_ENCRYPTED_LENGTH && !r.rx.closed
    requires rec.epoch != r.rx.epoch || Forged(r.rx.aead, rec)
    ensures Ignored(r, rec.Wire() + rest)
    ensures IsVersion(r.rx.aead, rec.version) ==> OpenRecord(r.rx, rec.Wire() + rest).consumed == |rec.Wire()|
  {
    hide ParseRecord, Rec.Wire, PutBigEndian, BigEndian, Window.ShouldDiscard;
    ParseWire(rec, rest);
    U16RoundTrip(rec.epoch);
    assert Sequence(rec.epoch, rec.seqNum)[..2] == PutU16(rec.epoch);
    assert rec.Wire() + rest != [];
  }

  /** The record does not open under the key. */
  predicate Forged(aead: Aead, rec: Rec)
    requires rec.Fits()
  {
    aead.open(rec.typ, rec.version, Sequence(rec.epoch, rec.seqNum), rec.ciphertext).None?
  }

  /** Records too long to be parsed, or of another version, are noise, with all that follows them in the packet. */
  lemma MisfitIsIgnored(r: Receiver, rec: Rec, rest: Bytes)
    requires rec.Fits() && !r.rx.closed
    requires |rec.ciphertext| > MAX_ENCRYPTED_LENGTH || !IsVersion(r.rx.aead, rec.version)
    ensures Ignored(r, rec.Wire() + rest) && OpenRecord(r.rx, rec.Wire() + rest).consumed == |rec.Wire() + rest|
  {
    hide ParseRecord, Rec.Wire, Sequence;
    if |rec.ciphertext| > MAX_ENCRYPTED_LENGTH {
      LongWireFails(rec, rest);
    } else {
      ParseWire(rec, rest);
      assert rec.Wire() + rest != [];
    }
  }

  /** No two records have the same number. */
  ghost predicate OneNumberEach(recs: seq<Rec>) {
    && (forall i | 0 <= i < |recs| :: recs[i].Fits())
    && forall i, j | 0 <= i < j < |recs| :: Number(recs[i]) != Number(recs[j])
  }

  /** The records that are delivered can be received. */
  ghost predicate AllReceivable(r: Receiver, msgs: seq<Message>, recs: seq<Rec>, schedule: seq<Delivery>) {
    forall j | 0 <= j < |schedule| && schedule[j].Delivery? ::
      schedule[j].index < |recs| && Receivable(r, msgs, recs[schedule[j].index])
  }

  ghost predicate Receivable(r: Receiver, msgs: seq<Message>, rec: Rec)
    ensures Receivable(r, msgs, rec) ==> rec.Fits()
  {
    exists tx, previous, flight, d :: Comes(r, msgs, tx, previous, flight, d, rec)
  }

  ghost predicate Playable(r: Receiver, recs: seq<Rec>, schedule: seq<Delivery>) {
    && (forall i | 0 <= i < |recs| :: recs[i].Fits())
    && forall j | 0 <= j < |schedule| ::
      if schedule[j].Noise? then Ignored(r, schedule[j].input) else schedule[j].index < |recs|
  }

  function Input(recs: seq<Rec>, d: Delivery): Bytes
    requires d.Delivery? ==> d.index < |recs| && recs[d.index].Fits()
  {
    if d.Noise? then d.input else recs[d.index].Wire() + d.rest
  }

  ghost function Arrivals(r: Receiver, recs: seq<Rec>, schedule: seq<Delivery>): seq<Event>
    requires Playable(r, recs, schedule)
    decreases |schedule|
  {
    if schedule == [] then []
    else [Arrive(Input(recs, schedule[0]))] + Arrivals(r, recs, schedule[1..])
  }

  /**
   No record comes too late: when it first arrives, nothing seen before it is 64 numbers ahead of it. This is all the
   replay window asks of the channel.
   */
  ghost predicate OnTime(recs: seq<Rec>, seen: set<nat>, schedule: seq<Delivery>)
    requires forall i | 0 <= i < |recs| :: recs[i].Fits()
    requires forall j | 0 <= j < |schedule| :: schedule[j].Delivery? ==> schedule[j].index < |recs|
    decreases |schedule|
  {
    if schedule == [] then true
    else if schedule[0].Noise? then OnTime(recs, seen, schedule[1..])
    else
      var n := Number(recs[schedule[0].index]);
      && (n in seen || forall s | s in seen :: s < n + WINDOW_SIZE)
      && OnTime(recs, seen + {n}, schedule[1..])
  }

  /** The replay window remembers the numbers `seen`, and a record whose number is among them has been taken. */
  ghost predicate Remembers(c: Conn, recs: seq<Rec>, seen: set<nat>) {
    && (forall i | 0 <= i < |recs| :: recs[i].Fits())
    && Represents(c.r.rx.window, seen)
    && forall i | 0 <= i < |recs| && Number(recs[i]) in seen :: Taken(c, recs[i])
  }

  lemma TakenStays(c: Conn, t: Conn, rec: Rec)
    requires Taken(c, rec) && c.log <= t.log && c.r.readSeq == t.r.readSeq
    ensures Taken(t, rec)
  {
    hide ParseFragment;
    if rec.typ == RT_HANDSHAKE {
      var p := ParseFragment(rec.plaintext).value;
      if p.hdr.seqNum >= c.r.readSeq {
        var j :| 0 <= j < |c.log| && c.log[j].hdr == p.hdr && c.log[j].body == p.body;
        assert t.log[j] == c.log[j];
      }
    }
  }

  lemma AllTakenStay(c: Conn, t: Conn, recs: seq<Rec>, seen: set<nat>)
    requires Remembers(c, recs, seen) && c.log <= t.log && c.r.readSeq == t.r.readSeq
    ensures forall i | 0 <= i < |recs| && Number(recs[i]) in seen :: Taken(t, recs[i])
  {
    hide Taken, Number, Rec.Fits;
    forall i | 0 <= i < |recs| && Number(recs[i]) in seen
      ensures Taken(t, recs[i])
    {
      TakenStays(c, t, recs[i]);
    }
  }

  /** A number that was not seen and of which nothing is 64 ahead is not discarded. */
  lemma NotStale(w: Window, seen: set<nat>, n: nat)
    requires Represents(w, seen) && n !in seen && forall s | s in seen :: s < n + WINDOW_SIZE
    ensures !w.ShouldDiscard(n)
  {
    hide Window.ShouldDiscard;
    DiscardsExactlySeenOrStale(w, seen, n);
  }

  /** A delivery that does not end the connection: of a record it does not survive, one whose number was seen before. */
  ghost predicate HarmlessOne(aead: Aead, recs: seq<Rec>, seen: set<nat>, d: Delivery)
    requires forall i | 0 <= i < |recs| :: recs[i].Fits()
    requires d.Delivery? ==> d.index < |recs|
  {
    d.Delivery? && !Survived(aead, recs[d.index]) ==> Number(recs[d.index]) in seen
  }

  /** A ChangeCipherSpec whose number was not seen before. */
  ghost predicate CcsIn(recs: seq<Rec>, seen: set<nat>, d: Delivery)
    requires forall i | 0 <= i < |recs| :: recs[i].Fits()
    requires d.Delivery? ==> d.index < |recs|
  {
    d.Delivery? && recs[d.index].typ == RT_CHANGE_CIPHER_SPEC && Number(recs[d.index]) !in seen
  }

  /**
   One record comes out of the channel. If the connection survives it, it has been taken afterwards, now or before; if
   not, and it is new, the connection ends.
   */
  lemma DeliverNext(c: Conn, msgs: seq<Message>, recs: seq<Rec>, seen: set<nat>, next: Delivery)
    requires Invariant(c, msgs) && OneNumberEach(recs) && Remembers(c, recs, seen)
    requires next.Delivery? && next.index < |recs| && Receivable(c.r, msgs, recs[next.index])
    requires var n := Number(recs[next.index]); n in seen || forall s | s in seen :: s < n + WINDOW_SIZE
    ensures var rec := recs[next.index]; var e := Arrive(Input(recs, next));
      && Allowed(c, e) && HonestEvent(c, e, msgs) && (Clean(c, e) <==> HarmlessOne(c.r.rx.aead, recs, seen, next))
      && var t := Do(c, e);
         && Invariant(t, msgs) && SameSetting(c.r, t.r) && c.log <= t.log
         && (HarmlessOne(c.r.rx.aead, recs, seen, next) ==>
               && Remembers(t, recs, seen + {Number(rec)})
               && t.r.hasCcs == (c.r.hasCcs || CcsIn(recs, seen, next)))
  {
    hide Invariant, Comes, Allowed, HonestEvent, Clean, Do, Rec.Wire, Rec.Fits, Number, Taken, Represents,
      Window.ShouldDiscard, Window.Record, OpenHandshake, Survived;
    var rec := recs[next.index];
    var n := Number(rec);
    var tx, previous, flight, d :| Comes(c.r, msgs, tx, previous, flight, d, rec);
    DeliverOne(c, msgs, tx, previous, flight, d, rec, next.rest);
    var e := Arrive(rec.Wire() + next.rest);
    var t := Do(c, e);
    AllTakenStay(c, t, recs, seen);
    if n in seen {
      DiscardsExactlySeenOrStale(c.r.rx.window, seen, n);
      assert seen + {n} == seen;
    } else {
      NotStale(c.r.rx.window, seen, n);
      if Survived(c.r.rx.aead, rec) {
        RecordAdds(c.r.rx.window, seen, n);
      } else {
        ErrorIsNotClean(c, e);
      }
    }
  }

  lemma ErrorIsNotClean(c: Conn, e: Event)
    requires c.r.Ring() && e.Arrive? && OpenHandshake(c.r, e.input).result.ReadError?
    ensures !Clean(c, e)
  {
  }

  /** Any record of the sender, timely or not, is honest input and keeps the invariant. */
  lemma DeliverAny(c: Conn, msgs: seq<Message>, recs: seq<Rec>, next: Delivery)
    requires Invariant(c, msgs) && next.Delivery? && next.index < |recs| && Receivable(c.r, msgs, recs[next.index])
    ensures var e := Arrive(Input(recs, next));
      && Allowed(c, e) && HonestEvent(c, e, msgs)
      && var t := Do(c, e); Invariant(t, msgs) && SameSetting(c.r, t.r) && c.log <= t.log
  {
    hide Invariant, Comes, Allowed, HonestEvent, Clean, Do, Rec.Wire, Rec.Fits, Number, Taken, OpenHandshake,
      Window.ShouldDiscard, Window.Record, Survived;
    var rec := recs[next.index];
    var tx, previous, flight, d :| Comes(c.r, msgs, tx, previous, flight, d, rec);
    DeliverOne(c, msgs, tx, previous, flight, d, rec, next.rest);
  }

  lemma NoiseIsIgnored(c: Conn, msgs: seq<Message>, input: Bytes)
    requires Invariant(c, msgs) && Ignored(c.r, input)
    ensures var e := Arrive(input); Allowed(c, e) && HonestEvent(c, e, msgs) && Clean(c, e) && Do(c, e) == c
  {
    hide Explained, OpenRecord, Receiver.Ring;
    ExplainedRing(c.r, msgs, c.log);
    assert OpenRecord(c.r.rx, input).result == Discarded;
    assert c.r.(rx := c.r.rx) == c.r && c.log + [] == c.log;
  }

  lemma SettingKeeps(r: Receiver, t: Receiver, msgs: seq<Message>, recs: seq<Rec>, schedule: seq<Delivery>)
    requires AllReceivable(r, msgs, recs, schedule) && SameSetting(r, t)
    ensures AllReceivable(t, msgs, recs, schedule)
  {
    hide Number, SealedUnder, Step, WholeMessage, Carries, Rec.Fits;
    forall j | 0 <= j < |schedule| && schedule[j].Delivery?
      ensures Receivable(t, msgs, recs[schedule[j].index])
    {
      var rec := recs[schedule[j].index];
      assert Receivable(r, msgs, rec);
      var tx, previous, flight, d :| Comes(r, msgs, tx, previous, flight, d, rec);
      assert Comes(t, msgs, tx, previous, flight, d, rec);
    }
  }

  lemma PlayableStays(r: Receiver, t: Receiver, recs: seq<Rec>, schedule: seq<Delivery>)
    requires Playable(r, recs, schedule) && SameSetting(r, t)
    ensures Playable(t, recs, schedule) && Arrivals(t, recs, schedule) == Arrivals(r, recs, schedule)
    decreases |schedule|
  {
    hide OpenRecord, Rec.Wire, Rec.Fits;
    if schedule != [] {
      PlayableStays(r, t, recs, schedule[1..]);
    }
  }

  predicate CleanRun(c: Conn, events: seq<Event>, msgs: seq<Message>)
    requires HonestRun(c, events, msgs)
    decreases |events|
  {
    events == [] || (Clean(c, events[0]) && CleanRun(Do(c, events[0]), events[1..], msgs))
  }

  /** The numbers seen after a schedule. */
  ghost function SeenAfter(recs: seq<Rec>, seen: set<nat>, schedule: seq<Delivery>): set<nat>
    requires forall i | 0 <= i < |recs| :: recs[i].Fits()
    requires forall j | 0 <= j < |schedule| :: schedule[j].Delivery? ==> schedule[j].index < |recs|
    decreases |schedule|
  {
    if schedule == [] then seen
    else if schedule[0].Noise? then SeenAfter(recs, seen, schedule[1..])
    else SeenAfter(recs, seen + {Number(recs[schedule[0].index])}, schedule[1..])
  }

  lemma {:induction false} DeliveredIsSeen(recs: seq<Rec>, seen: set<nat>, schedule: seq<Delivery>, n: nat)
    requires forall i | 0 <= i < |recs| :: recs[i].Fits()
    requires forall j | 0 <= j < |schedule| :: schedule[j].Delivery? ==> schedule[j].index < |recs|
    ensures n in seen ==> n in SeenAfter(recs, seen, schedule)
    ensures forall j | 0 <= j < |schedule| && schedule[j].Delivery? ::
      Number(recs[schedule[j].index]) == n ==> n in SeenAfter(recs, seen, schedule)
    decreases |schedule|
  {
    hide Number, Rec.Fits;
    if schedule != [] {
      var more := if schedule[0].Noise? then seen else seen + {Number(recs[schedule[0].index])};
      DeliveredIsSeen(recs, more, schedule[1..], n);
      forall j | 0 < j < |schedule| && schedule[j].Delivery?
        ensures Number(recs[schedule[j].index]) == n ==> n in SeenAfter(recs, seen, schedule)
      {
        assert schedule[1..][j - 1] == schedule[j];
      }
    }
  }

  /** No delivery of the schedule ends the connection. */
  ghost predicate Harmless(aead: Aead, recs: seq<Rec>, seen: set<nat>, schedule: seq<Delivery>)
    requires forall i | 0 <= i < |recs| :: recs[i].Fits()
    requires forall j | 0 <= j < |schedule| :: schedule[j].Delivery? ==> schedule[j].index < |recs|
  {
    forall j | 0 <= j < |schedule| :: HarmlessOne(aead, recs, seen, schedule[j])
  }

  /** A new ChangeCipherSpec is among the deliveries. */
  ghost predicate CcsComes(recs: seq<Rec>, seen: set<nat>, schedule: seq<Delivery>)
    requires forall i | 0 <= i < |recs| :: recs[i].Fits()
    requires forall j | 0 <= j < |schedule| :: schedule[j].Delivery? ==> schedule[j].index < |recs|
  {
    exists j :: 0 <= j < |schedule| && CcsIn(recs, seen, schedule[j])
  }

  lemma CcsNext(recs: seq<Rec>, seen: set<nat>, schedule: seq<Delivery>)
    requires OneNumberEach(recs) && schedule != []
    requires forall j | 0 <= j < |schedule| :: schedule[j].Delivery? ==> schedule[j].index < |recs|
    ensures var d := schedule[0];
      var more := if d.Noise? then seen else seen + {Number(recs[d.index])};
      CcsComes(recs, seen, schedule) <==> (CcsIn(recs, seen, d) || CcsComes(recs, more, schedule[1..]))
  {
    hide Number, Rec.Fits;
    var d, rest := schedule[0], schedule[1..];
    var more := if d.Noise? then seen else seen + {Number(recs[d.index])};
    if CcsComes(recs, seen, schedule) && !CcsIn(recs, seen, d) {
      var j :| 0 <= j < |schedule| && CcsIn(recs, seen, schedule[j]);
      assert CcsIn(recs, more, rest[j - 1]);
    }
    if CcsComes(recs, more, rest) {
      var j :| 0 <= j < |rest| && CcsIn(recs, more, rest[j]);
      assert CcsIn(recs, seen, schedule[j + 1]);
    }
  }

  lemma HarmlessNext(aead: Aead, recs: seq<Rec>, seen: set<nat>, schedule: seq<Delivery>)
    requires OneNumberEach(recs)
    requires forall j | 0 <= j < |schedule| :: schedule[j].Delivery? ==> schedule[j].index < |recs|
    requires schedule != [] && HarmlessOne(aead, recs, seen, schedule[0])
    ensures var d := schedule[0];
      Harmless(aead, recs, seen, schedule) <==>
        Harmless(aead, recs, if d.Noise? then seen else seen + {Number(recs[d.index])}, schedule[1..])
  {
    hide Number, Survived, Rec.Fits;
    var d, rest := schedule[0], schedule[1..];
    var more := if d.Noise? then seen else seen + {Number(recs[d.index])};
    forall j | 0 <= j < |rest|
      ensures HarmlessOne(aead, recs, seen, rest[j]) <==> HarmlessOne(aead, recs, more, rest[j])
    {
      assert rest[j] == schedule[j + 1];
      if d.Delivery? && rest[j].Delivery? && Number(recs[rest[j].index]) == Number(recs[d.index]) {
        assert rest[j].index == d.index;
      }
    }
    if Harmless(aead, recs, more, rest) {
      forall j | 0 <= j < |schedule|
        ensures HarmlessOne(aead, recs, seen, schedule[j])
      {
        assert j > 0 ==> schedule[j] == rest[j - 1];
      }
    }
  }

  /** Whatever of the sender's records comes out of the channel, the run is honest and the invariant is kept. */
  lemma {:induction false} ScheduleIsHonest(c: Conn, msgs: seq<Message>, recs: seq<Rec>, schedule: seq<Delivery>)
    requires Invariant(c, msgs) && AllReceivable(c.r, msgs, recs, schedule) && Playable(c.r, recs, schedule)
    ensures var events := Arrivals(c.r, recs, schedule);
      && HonestRun(c, events, msgs)
      && var t := Run(c, events, msgs); Invariant(t, msgs) && SameSetting(c.r, t.r) && c.log <= t.log
    decreases |schedule|
  {
    hide Invariant, Receivable, Allowed, HonestEvent, Clean, Do, Rec.Wire, Rec.Fits, Number, Ignored;
    if schedule != [] {
      var e := Arrive(Input(recs, schedule[0]));
      if schedule[0].Noise? {
        NoiseIsIgnored(c, msgs, schedule[0].input);
      } else {
        DeliverAny(c, msgs, recs, schedule[0]);
      }
      var d := Do(c, e);
      SettingKeeps(c.r, d.r, msgs, recs, schedule[1..]);
      PlayableStays(c.r, d.r, recs, schedule[1..]);
      ScheduleIsHonest(d, msgs, recs, schedule[1..]);
      assert Arrivals(c.r, recs, schedule)[1..] == Arrivals(d.r, recs, schedule[1..]);
    }
  }

  /**
   Whatever comes out of the channel, in time: the connection lasts exactly if no new record is among it that it does
   not survive, and then every record delivered is taken, and a ChangeCipherSpec is pending if one was or one came.
   */
  lemma {:induction false} ScheduleIsTaken(c: Conn, msgs: seq<Message>, recs: seq<Rec>, seen: set<nat>,
      schedule: seq<Delivery>)
    requires Invariant(c, msgs) && OneNumberEach(recs) && Remembers(c, recs, seen)
    requires AllReceivable(c.r, msgs, recs, schedule)
    requires Playable(c.r, recs, schedule) && OnTime(recs, seen, schedule)
    ensures var events := Arrivals(c.r, recs, schedule);
      && HonestRun(c, events, msgs) && (CleanRun(c, events, msgs) <==> Harmless(c.r.rx.aead, recs, seen, schedule))
      && var t := Run(c, events, msgs);
         && Invariant(t, msgs) && SameSetting(c.r, t.r) && c.log <= t.log
         && (Harmless(c.r.rx.aead, recs, seen, schedule) ==>
               && Remembers(t, recs, SeenAfter(recs, seen, schedule))
               && t.r.hasCcs == (c.r.hasCcs || CcsComes(recs, seen, schedule)))
    decreases |schedule|
  {
    hide Invariant, Receivable, Remembers, Allowed, HonestEvent, Clean, Do, Rec.Wire, Rec.Fits, Number, Ignored,
      HarmlessOne, CcsIn;
    ScheduleIsHonest(c, msgs, recs, schedule);
    if schedule != [] {
      var e := Arrive(Input(recs, schedule[0]));
      var more := seen;
      if schedule[0].Noise? {
        NoiseIsIgnored(c, msgs, schedule[0].input);
        NoiseIsHarmless(c.r.rx.aead, recs, seen, schedule[0]);
      } else {
        DeliverNext(c, msgs, recs, seen, schedule[0]);
        more := seen + {Number(recs[schedule[0].index])};
      }
      assert Arrivals(c.r, recs, schedule)[0] == e;
      if HarmlessOne(c.r.rx.aead, recs, seen, schedule[0]) {
        var d := Do(c, e);
        SettingKeeps(c.r, d.r, msgs, recs, schedule[1..]);
        PlayableStays(c.r, d.r, recs, schedule[1..]);
        HarmlessNext(c.r.rx.aead, recs, seen, schedule);
        CcsNext(recs, seen, schedule);
        ScheduleIsTaken(d, msgs, recs, more, schedule[1..]);
        assert Arrivals(c.r, recs, schedule)[1..] == Arrivals(d.r, recs, schedule[1..]);
      }
    }
  }

  lemma NoiseIsHarmless(aead: Aead, recs: seq<Rec>, seen: set<nat>, d: Delivery)
    requires (forall i | 0 <= i < |recs| :: recs[i].Fits()) && d.Noise?
    ensures HarmlessOne(aead, recs, seen, d) && !CcsIn(recs, seen, d)
  {
  }

  // ----- End to end -----

  predicate DeliveredIn(schedule: seq<Delivery>, i: nat) {
    exists j :: 0 <= j < |schedule| && schedule[j].Delivery? && schedule[j].index == i
  }

  /** Some record that carries byte `i` of message `n` is delivered. */
  predicate ByteComes(recs: seq<Rec>, schedule: seq<Delivery>, n: nat, i: nat) {
    exists k :: 0 <= k < |recs| && CarriesByte(recs[k], n, i) && DeliveredIn(schedule, k)
  }

  /**
   Of message `n`, every byte has come or comes now, in whichever transmission and whatever cut; of an empty message,
   a fragment.
   */
  predicate Completed(log: seq<Parsed>, recs: seq<Rec>, schedule: seq<Delivery>, msgs: seq<Message>, n: nat) {
    && n < |msgs|
    && (PiecesFor(log, n) != [] || ByteComes(recs, schedule, n, |msgs[n].body|))
    && forall i | 0 <= i < |msgs[n].body| :: CoveredBy(PiecesFor(log, n), i) || ByteComes(recs, schedule, n, i)
  }

  lemma PiecesStay(a: seq<Parsed>, b: seq<Parsed>, n: nat, q: Piece)
    requires a <= b && q in PiecesFor(a, n)
    ensures q in PiecesFor(b, n)
  {
    hide PiecesFor;
    PieceIffLogged(a, n, q);
    PieceIffLogged(b, n, q);
    var k :| 0 <= k < |a| && a[k].hdr.seqNum == n && q == Piece(a[k].hdr.fragOff, a[k].body);
    assert b[k] == a[k];
  }

  /** A byte that comes is covered by what has been taken. */
  lemma ByteIsCovered(t: Conn, msgs: seq<Message>, recs: seq<Rec>, seen: set<nat>, schedule: seq<Delivery>, n: nat,
      i: nat)
    requires Invariant(t, msgs) && Remembers(t, recs, seen) && t.r.readSeq <= n < |msgs|
    requires forall k | 0 <= k < |recs| && DeliveredIn(schedule, k) :: Number(recs[k]) in seen
    requires ByteComes(recs, schedule, n, i)
    ensures PiecesFor(t.log, n) != [] && (i < |msgs[n].body| ==> CoveredBy(PiecesFor(t.log, n), i))
  {
    hide PiecesFor, ParseFragment, Number, Rec.Fits, Receiver.Ring, SlotsExplained, Receiver.Valid;
    var k :| 0 <= k < |recs| && CarriesByte(recs[k], n, i) && DeliveredIn(schedule, k);
    assert Taken(t, recs[k]);
    var p := ParseFragment(recs[k].plaintext).value;
    var j :| 0 <= j < |t.log| && t.log[j].hdr == p.hdr && t.log[j].body == p.body;
    assert Honest(t.log[j], msgs);
    var piece := Piece(p.hdr.fragOff, p.body);
    PieceIffLogged(t.log, n, piece);
    assert piece in PiecesFor(t.log, n);
    assert i < |msgs[n].body| ==> Covers(piece, i);
  }

  lemma CompletedHasArrived(log: seq<Parsed>, t: Conn, msgs: seq<Message>, recs: seq<Rec>, seen: set<nat>,
      schedule: seq<Delivery>, n: nat)
    requires Invariant(t, msgs) && Remembers(t, recs, seen) && t.r.readSeq <= n && log <= t.log
    requires forall k | 0 <= k < |recs| && DeliveredIn(schedule, k) :: Number(recs[k]) in seen
    requires Completed(log, recs, schedule, msgs, n)
    ensures Arrived(msgs, t.log, n)
  {
    hide PiecesFor, Invariant, Remembers, ByteComes, DeliveredIn, Number, Rec.Fits;
    if PiecesFor(log, n) != [] {
      PiecesStay(log, t.log, n, PiecesFor(log, n)[0]);
    } else {
      ByteIsCovered(t, msgs, recs, seen, schedule, n, |msgs[n].body|);
    }
    forall i | 0 <= i < |msgs[n].body|
      ensures CoveredBy(PiecesFor(t.log, n), i)
    {
      if CoveredBy(PiecesFor(log, n), i) {
        var q: nat :| q < |PiecesFor(log, n)| && Covers(PiecesFor(log, n)[q], i);
        PiecesStay(log, t.log, n, PiecesFor(log, n)[q]);
      } else {
        ByteIsCovered(t, msgs, recs, seen, schedule, n, i);
      }
    }
  }

  /**
   End to end, from the sender's records to the handshake. The records may come from any number of transmissions of
   any flights, each cut for its own packet sizes and interrupted anywhere; the channel may lose, repeat, reorder and
   mix them, and mix in other records of the same key, as long as none comes too late for the replay window. The
   connection lasts exactly if no new record is delivered that it does not survive; and then, as soon as each byte of
   the next `k` messages has come, in one transmission or another, they are handed out, in order.
   */
  lemma FlightSurvivesChannel(c: Conn, msgs: seq<Message>, recs: seq<Rec>, seen: set<nat>, schedule: seq<Delivery>,
      k: nat)
    requires Invariant(c, msgs) && !c.r.hasMessage && OneNumberEach(recs) && Remembers(c, recs, seen)
    requires AllReceivable(c.r, msgs, recs, schedule)
    requires Playable(c.r, recs, schedule) && OnTime(recs, seen, schedule)
    requires forall n | c.r.readSeq <= n < c.r.readSeq + k :: Completed(c.log, recs, schedule, msgs, n)
    ensures var events := Arrivals(c.r, recs, schedule);
      && HonestRun(c, events, msgs) && (CleanRun(c, events, msgs) <==> Harmless(c.r.rx.aead, recs, seen, schedule))
      && (Harmless(c.r.rx.aead, recs, seen, schedule) ==>
           var t := Run(c, events, msgs);
           && HonestRun(t, Drain(k), msgs)
           && c.r.readSeq + k <= |msgs| && Run(t, Drain(k), msgs).out == msgs[..c.r.readSeq + k])
  {
    hide Invariant, AllReceivable, Remembers, Rec.Fits, Number, Ignored, Arrivals, HonestRun, Run, CleanRun, OnTime,
      Completed, Arrived, SeenAfter, Harmless;
    ScheduleIsTaken(c, msgs, recs, seen, schedule);
    if Harmless(c.r.rx.aead, recs, seen, schedule) {
      var t := Run(c, Arrivals(c.r, recs, schedule), msgs);
      var later := SeenAfter(recs, seen, schedule);
      forall i | 0 <= i < |recs| && DeliveredIn(schedule, i)
        ensures Number(recs[i]) in later
      {
        DeliveredIsSeen(recs, seen, schedule, Number(recs[i]));
      }
      forall n | c.r.readSeq <= n < c.r.readSeq + k
        ensures Arrived(msgs, t.log, n)
      {
        CompletedHasArrived(c.log, t, msgs, recs, later, schedule, n);
      }
      ArrivedMessagesAreDelivered(t, k, msgs);
    }
  }

  // ----- What transmissions give -----

  /** Among the records that lead past message `w` there is one that holds its byte `i`. */
  lemma {:induction false} SomeRecordHolds(flight: seq<OutMsg>, c: Cursor, recs: seq<Rec>, w: nat, i: nat)
    returns (k: nat, off: nat, len: nat)
    requires Steps(flight, c, recs).Some? && c.written <= w < Steps(flight, c, recs).value.written
    requires w < |flight| && !flight[w].isCcs && WholeMessage(flight[w].data).Some?
    requires (c.written == w ==> c.offset <= i) && i <= |WholeMessage(flight[w].data).value.body|
    ensures k < |recs| && recs[k].typ == RT_HANDSHAKE && off <= i
    ensures var m := WholeMessage(flight[w].data).value;
      && off + len <= |m.body| && (i < |m.body| ==> i < off + len)
      && recs[k].plaintext == FragmentText(m, off, len)
    decreases |recs|
  {
    hide WholeMessage, FragmentText;
    var d := Step(flight, c, recs[0]).value;
    StepAdvances(flight, c, recs[0]);
    StepShape(flight, c, recs[0]);
    if c.written == w && (d.written > w || i < d.offset) {
      k, off, len := 0, c.offset, |recs[0].plaintext| - HM_HEADER_LENGTH;
    } else {
      k, off, len := SomeRecordHolds(flight, d, recs[1..], w, i);
      k := k + 1;
    }
  }

  /**
   A transmission of the messages `from` to `to` of a flight, without gap, all of whose records are among those
   delivered, completes each of these messages.
   */
  lemma TransmissionCompletes(flight: seq<OutMsg>, from: nat, to: nat, msgs: seq<Message>, sent: seq<Rec>,
      log: seq<Parsed>, recs: seq<Rec>, schedule: seq<Delivery>, w: nat)
    requires Numbered(msgs) && Carries(flight, msgs) && from <= w < to && w < |flight| && !flight[w].isCcs
    requires Steps(flight, Cursor(from, 0), sent) == Some(Cursor(to, 0))
    requires forall i | 0 <= i < |sent| :: SentAndDelivered(sent[i], recs, schedule)
    ensures Carried(flight[w], msgs)
    ensures Completed(log, recs, schedule, msgs, WholeMessage(flight[w].data).value.seqNum)
  {
    hide WholeMessage, PiecesFor, Steps, CoveredBy, CarriesByte, DeliveredIn;
    assert Carried(flight[w], msgs);
    var m := WholeMessage(flight[w].data).value;
    TransmissionCarries(flight, from, to, sent, recs, schedule, w, |m.body|);
    forall i | 0 <= i < |m.body|
      ensures ByteComes(recs, schedule, m.seqNum, i)
    {
      TransmissionCarries(flight, from, to, sent, recs, schedule, w, i);
    }
  }

  predicate SentAndDelivered(rec: Rec, recs: seq<Rec>, schedule: seq<Delivery>) {
    exists k :: 0 <= k < |recs| && recs[k] == rec && DeliveredIn(schedule, k)
  }

  lemma TransmissionCarries(flight: seq<OutMsg>, from: nat, to: nat, sent: seq<Rec>, recs: seq<Rec>,
      schedule: seq<Delivery>, w: nat, i: nat)
    requires from <= w < to && w < |flight| && !flight[w].isCcs && WholeMessage(flight[w].data).Some?
    requires Steps(flight, Cursor(from, 0), sent) == Some(Cursor(to, 0))
    requires forall i | 0 <= i < |sent| :: SentAndDelivered(sent[i], recs, schedule)
    requires i <= |WholeMessage(flight[w].data).value.body|
    ensures ByteComes(recs, schedule, WholeMessage(flight[w].data).value.seqNum, i)
  {
    hide WholeMessage, FragmentText, ParseFragment, Steps, DeliveredIn;
    var m := WholeMessage(flight[w].data).value;
    var j, off, len := SomeRecordHolds(flight, Cursor(from, 0), sent, w, i);
    ParseFragmentText(m, off, len);
    assert SentAndDelivered(sent[j], recs, schedule);
    var k :| 0 <= k < |recs| && recs[k] == sent[j] && DeliveredIn(schedule, k);
    assert CarriesByte(recs[k], m.seqNum, i);
  }
}
