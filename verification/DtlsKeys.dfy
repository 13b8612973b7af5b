/**
 Which key belongs to which epoch: over any run of the write half, every record is sealed under the key installed for
 the epoch in its header. So a flight queued across a change of key, and sent again after it, reaches a receiver of
 either epoch.
 */
module DtlsKeys {
  import opened Wrappers
  import opened DtlsWire
  import DtlsReplay
  import opened DtlsRecord
  import opened DtlsNonces
  import opened DtlsSender
  import opened DtlsReceiver
  import opened DtlsEndToEnd
  import opened DtlsDelivery
  import opened DtlsConversation
  import opened DtlsMtu

  // ----- The keys of a run -----

  /** The keys that the operations install, in order. */
  function Installed(ops: seq<Op>): seq<Aead> {
    if ops == [] then []
    else (match ops[0] case EpochOp(aead) => [aead] case SealOp(_, _, _, _) => []) + Installed(ops[1..])
  }

  /** The keys of a connection by epoch: the one it starts with, and those installed since. */
  function KeysOf(aead: Aead, ops: seq<Op>): seq<Aead> { [aead] + Installed(ops) }

  /** The key of the current epoch. */
  function LastKey(aead: Aead, ops: seq<Op>): Aead {
    var keys := KeysOf(aead, ops);
    keys[|keys| - 1]
  }

  function NewTx(aead: Aead): Tx { Tx(0, 0, aead, 0, aead) }

  /** The record that the operation seals, if it seals one. */
  function RecordOf(tx: Tx, op: Op): Option<Rec>
    requires Enabled(tx, op)
  {
    match op
    case SealOp(previous, typ, text, maxOut) => Seal(tx, previous, typ, text, maxOut).rec
    case EpochOp(_) => None
  }

  /** All records sealed in a run, in order. */
  function Records(tx: Tx, ops: seq<Op>): seq<Rec>
    requires RunEnabled(tx, ops)
    decreases |ops|
  {
    if ops == [] then []
    else
      var rest := Records(After(tx, ops[0]), ops[1..]);
      match RecordOf(tx, ops[0])
      case Some(rec) => [rec] + rest
      case None => rest
  }

  /** The current key is the last one, and the key kept for retransmissions the one before. */
  ghost predicate HasKeys(tx: Tx, keys: seq<Aead>) {
    && |keys| == tx.epoch + 1 <= 0x1_0000 && tx.aead == keys[tx.epoch]
    && (tx.epoch >= 1 ==> tx.lastAead == keys[tx.epoch - 1])
  }

  /** The record is sealed under the key of the epoch in its header, with the version of that key or of the next. */
  predicate UnderItsKey(rec: Rec, keys: seq<Aead>) {
    && rec.Fits() && rec.epoch < |keys|
    && keys[rec.epoch].seal(rec.typ, rec.version, Sequence(rec.epoch, rec.seqNum), rec.plaintext)
       == Some(rec.ciphertext)
    && (|| rec.version == keys[rec.epoch].recordVersion
        || (rec.epoch + 1 < |keys| && rec.version == keys[rec.epoch + 1].recordVersion))
  }

  lemma StepKeepsKeys(tx: Tx, op: Op, keys: seq<Aead>)
    requires Enabled(tx, op) && HasKeys(tx, keys)
    ensures HasKeys(After(tx, op), keys + Installed([op]))
    ensures RecordOf(tx, op).Some? ==> UnderItsKey(RecordOf(tx, op).value, keys)
  {
    hide Sequence, Pow256;
  }

  lemma MoreKeys(rec: Rec, keys: seq<Aead>, more: seq<Aead>)
    requires UnderItsKey(rec, keys)
    ensures UnderItsKey(rec, keys + more)
  {
    hide Sequence, Rec.Fits;
  }

  /** Over any run, every record is sealed under the key installed for its epoch, and the state keeps the last two. */
  lemma {:induction false} RunUsesKeys(tx: Tx, ops: seq<Op>, keys: seq<Aead>)
    requires RunEnabled(tx, ops) && HasKeys(tx, keys)
    ensures HasKeys(StateAfter(tx, ops), keys + Installed(ops))
    ensures forall i | 0 <= i < |Records(tx, ops)| :: UnderItsKey(Records(tx, ops)[i], keys + Installed(ops))
    decreases |ops|
  {
    hide HasKeys, UnderItsKey, Enabled, After, RecordOf;
    if ops == [] {
      assert keys + Installed(ops) == keys;
    } else {
      var t, rest, now := After(tx, ops[0]), ops[1..], keys + Installed([ops[0]]);
      StepKeepsKeys(tx, ops[0], keys);
      RunUsesKeys(t, rest, now);
      assert now + Installed(rest) == keys + Installed(ops);
      if RecordOf(tx, ops[0]).Some? {
        MoreKeys(RecordOf(tx, ops[0]).value, keys, Installed(ops));
      }
    }
  }

  /** So from a new connection. */
  lemma EveryRecordIsUnderItsKey(aead: Aead, ops: seq<Op>)
    requires RunEnabled(NewTx(aead), ops)
    ensures HasKeys(StateAfter(NewTx(aead), ops), KeysOf(aead, ops))
    ensures forall i | 0 <= i < |Records(NewTx(aead), ops)| ::
      UnderItsKey(Records(NewTx(aead), ops)[i], KeysOf(aead, ops))
  {
    hide UnderItsKey, StateAfter, Records, Installed;
    RunUsesKeys(NewTx(aead), ops, [aead]);
  }

  // ----- Reading with the key of an epoch -----

  /** Each key opens what it seals, and takes the version of the next. */
  ghost predicate OneVersion(keys: seq<Aead>) {
    forall e | 0 <= e < |keys| ::
      keys[e].Sound() && (e + 1 < |keys| ==> IsVersion(keys[e], keys[e + 1].recordVersion))
  }

  /** The reader has the key of its epoch. */
  ghost predicate HasKey(rx: Rx, keys: seq<Aead>) {
    rx.epoch < |keys| && rx.aead == keys[rx.epoch] && !rx.closed
  }

  /** A writer that has come as far as the reader, or one epoch further, shares the key of the reader's epoch. */
  lemma KeysAreShared(tx: Tx, keys: seq<Aead>, rx: Rx, previous: bool)
    requires tx.Fits() && HasKeys(tx, keys) && OneVersion(keys) && HasKey(rx, keys)
    requires rx.epoch + (if previous then 1 else 0) == tx.epoch
    ensures SharedKey(rx, tx, previous)
  {
    hide Pow256;
    assert keys[rx.epoch].Sound();
  }

  /** Whatever record a run seals, the reader of its epoch opens. */
  lemma EveryRecordOpens(aead: Aead, ops: seq<Op>, i: nat, rx: Rx, rest: Bytes)
    requires RunEnabled(NewTx(aead), ops) && i < |Records(NewTx(aead), ops)|
    requires OneVersion(KeysOf(aead, ops)) && HasKey(rx, KeysOf(aead, ops))
    requires var rec := Records(NewTx(aead), ops)[i];
      rec.Fits() ==>
        && rec.epoch == rx.epoch && |rec.ciphertext| <= MAX_ENCRYPTED_LENGTH && !Overflows(rec)
        && !rx.window.ShouldDiscard(Number(rec)) && rec.typ != RT_ALERT
    ensures var rec := Records(NewTx(aead), ops)[i];
      rec.Fits() && OpenRecord(rx, rec.Wire() + rest).result == Opened(rec.typ, rec.plaintext)
  {
    hide Sequence, Records, Installed, OpenRecord, DtlsReplay.Window.ShouldDiscard, DtlsReplay.Window.Record,
      Rec.Wire, Number, Pow256;
    EveryRecordIsUnderItsKey(aead, ops);
    var rec, keys := Records(NewTx(aead), ops)[i], KeysOf(aead, ops);
    assert UnderItsKey(rec, keys);
    var tx, previous := WriterOf(keys, rec, rx);
    SealedRecordOpens(rx, tx, previous, rec, rest);
  }

  /** A writer that could have sealed the record. */
  lemma WriterOf(keys: seq<Aead>, rec: Rec, rx: Rx) returns (tx: Tx, previous: bool)
    requires UnderItsKey(rec, keys) && OneVersion(keys) && HasKey(rx, keys) && rec.epoch == rx.epoch
    requires |keys| <= 0x1_0000
    ensures SharedKey(rx, tx, previous) && SealedUnder(rec, tx, previous)
  {
    hide Sequence, Pow256;
    var e := rec.epoch;
    SixBytes();
    if rec.version == keys[e].recordVersion {
      tx, previous := Tx(e, 0, keys[e], 0, keys[e]), false;
    } else {
      tx, previous := Tx(e + 1, 0, keys[e + 1], 0, keys[e]), true;
    }
    assert keys[e].Sound();
  }

  // ----- A flight queued across a change of key -----

  /** The sender has come this far, and sends the flight again, with whatever packet sizes and interruptions. */
  ghost predicate SendsAgain(aead: Aead, ops: seq<Op>, s: Sender, msgs: seq<Message>) {
    && RunEnabled(NewTx(aead), ops) && s.tx == StateAfter(NewTx(aead), ops)
    && s.Valid() && Carries(s.msgs, msgs) && OneVersion(KeysOf(aead, ops))
  }

  /** The receiver has the key of its epoch, and takes the messages of the flight that were queued in it. */
  ghost predicate Listens(r: Receiver, keys: seq<Aead>, flight: seq<OutMsg>) {
    && HasKey(r.rx, keys)
    && forall w | 0 <= w < |flight| && flight[w].epoch == r.rx.epoch && !flight[w].isCcs ::
      WholeMessage(flight[w].data).Some? ==> Welcome(r, WholeMessage(flight[w].data).value)
  }

  lemma ListenerHears(aead: Aead, ops: seq<Op>, s: Sender, msgs: seq<Message>, r: Receiver, previous: bool)
    requires SendsAgain(aead, ops, s, msgs) && Listens(r, KeysOf(aead, ops), s.msgs)
    requires r.rx.epoch + (if previous then 1 else 0) == s.tx.epoch
    ensures Hears(r, s, previous)
  {
    hide Installed, StateAfter, Welcome, WholeMessage, Pow256, SharedKey, OneVersion, UnderItsKey, Carries;
    EveryRecordIsUnderItsKey(aead, ops);
    KeysAreShared(s.tx, KeysOf(aead, ops), r.rx, previous);
  }

  /**
   Of a flight sent again after a change of key, with messages queued before and after it, every record can be received
   by the receiver that has the key of its epoch, be it still in the old epoch or in the new one, and is noise to the
   other; unless it is too long to be parsed, and noise to both.
   */
  lemma BothEpochsReceive(aead: Aead, ops: seq<Op>, s: Sender, msgs: seq<Message>, attempts: seq<Attempt>, i: nat,
      before: Receiver, after: Receiver, rest: Bytes)
    requires SendsAgain(aead, ops, s, msgs) && s.tx.epoch >= 1
    requires Listens(before, KeysOf(aead, ops), s.msgs) && before.rx.epoch + 1 == s.tx.epoch
    requires Listens(after, KeysOf(aead, ops), s.msgs) && after.rx.epoch == s.tx.epoch
    requires i < |Flatten(SendAll(s, attempts).packets)|
    ensures var rec := Flatten(SendAll(s, attempts).packets)[i];
      && rec.Fits() && rec.epoch in {s.tx.epoch - 1, s.tx.epoch}
      && (var (mine, other) := if rec.epoch == s.tx.epoch then (after, before) else (before, after);
          && Ignored(other, rec.Wire() + rest)
          && (if |rec.ciphertext| <= MAX_ENCRYPTED_LENGTH then Receivable(mine, msgs, rec)
              else Ignored(mine, rec.Wire() + rest)))
  {
    hide RunEnabled, StateAfter, OneVersion, Listens, Hears, KeysOf, SendAll, Flatten, Ignored, Receivable, Rec.Wire,
      Sequence, Largest, Carries;
    ListenerHears(aead, ops, s, msgs, before, true);
    ListenerHears(aead, ops, s, msgs, after, false);
    SentIsReceivable(before, msgs, s, true, attempts, i, rest);
    SentIsReceivable(after, msgs, s, false, attempts, i, rest);
    SendAllCut(s, attempts, Largest(attempts));
    assert Cut(s.tx, Flatten(SendAll(s, attempts).packets)[i], Largest(attempts));
  }

  // ----- The flight gets through -----

  /** Records of messages of one epoch are of that epoch. */
  lemma {:induction false} StepsKeepEpoch(flight: seq<OutMsg>, c: Cursor, recs: seq<Rec>, to: nat, epoch: nat)
    requires Steps(flight, c, recs) == Some(Cursor(to, 0)) && to <= |flight|
    requires forall w | c.written <= w < to :: flight[w].epoch == epoch
    ensures forall i | 0 <= i < |recs| :: recs[i].epoch == epoch
    decreases |recs|
  {
    hide Step;
    if recs != [] {
      var d := Step(flight, c, recs[0]).value;
      StepShape(flight, c, recs[0]);
      EpochOfStep(flight, c, recs[0]);
      StepsAdvance(flight, c, recs);
      StepsKeepEpoch(flight, d, recs[1..], to, epoch);
      forall i | 0 <= i < |recs|
        ensures recs[i].epoch == epoch
      {
        assert i > 0 ==> recs[i] == recs[1..][i - 1];
      }
    }
  }

  /** The schedule delivers records of one epoch only, and all of those among the records. */
  predicate DeliversEpoch(recs: seq<Rec>, schedule: seq<Delivery>, epoch: nat) {
    && (forall j | 0 <= j < |schedule| && schedule[j].Delivery? ::
          schedule[j].index < |recs| && recs[schedule[j].index].epoch == epoch
          && |recs[schedule[j].index].ciphertext| <= MAX_ENCRYPTED_LENGTH)
    && forall i | 0 <= i < |recs| && recs[i].epoch == epoch :: DeliveredIn(schedule, i)
  }

  /** Message `n` is among those of the flight between `from` and `to`. */
  predicate Holds(flight: seq<OutMsg>, from: nat, to: nat, n: nat) {
    exists w :: from <= w < to && w < |flight| && !flight[w].isCcs && IsNumbered(flight[w].data, n)
  }

  /** What a delivery of one epoch's records of a transmission completes. */
  lemma EpochCompletes(flight: seq<OutMsg>, from: nat, to: nat, epoch: nat, msgs: seq<Message>, part: seq<Rec>,
      log: seq<Parsed>, recs: seq<Rec>, schedule: seq<Delivery>, lo: nat, hi: nat)
    requires Numbered(msgs) && Carries(flight, msgs) && to <= |flight|
    requires Steps(flight, Cursor(from, 0), part) == Some(Cursor(to, 0))
    requires forall w | from <= w < to :: flight[w].epoch == epoch
    requires (forall rec | rec in part :: rec in recs) && DeliversEpoch(recs, schedule, epoch)
    requires forall n | lo <= n < hi :: Holds(flight, from, to, n)
    ensures forall n | lo <= n < hi :: Completed(log, recs, schedule, msgs, n)
  {
    hide WholeMessage, Steps, Carries, Completed, DeliveredIn;
    StepsKeepEpoch(flight, Cursor(from, 0), part, to, epoch);
    forall i | 0 <= i < |part|
      ensures SentAndDelivered(part[i], recs, schedule)
    {
      assert part[i] in recs;
    }
    forall n | lo <= n < hi
      ensures Completed(log, recs, schedule, msgs, n)
    {
      assert Holds(flight, from, to, n);
      var w :| from <= w < to && w < |flight| && !flight[w].isCcs && IsNumbered(flight[w].data, n);
      TransmissionCompletes(flight, from, to, msgs, part, log, recs, schedule, w);
    }
  }

  /** The parts of a whole transmission before and after message `w`. */
  lemma SplitAt(flight: seq<OutMsg>, recs: seq<Rec>, w: nat) returns (a: seq<Rec>, b: seq<Rec>)
    requires Steps(flight, Cursor(0, 0), recs) == Some(Cursor(|flight|, 0)) && w <= |flight|
    ensures Steps(flight, Cursor(0, 0), a) == Some(Cursor(w, 0))
    ensures Steps(flight, Cursor(w, 0), b) == Some(Cursor(|flight|, 0))
    ensures (forall rec | rec in a :: rec in recs) && forall rec | rec in b :: rec in recs
  {
    hide Step;
    if w == 0 {
      a, b := [], recs;
    } else {
      var k := StepsSplit(flight, Cursor(0, 0), recs, w);
      a, b := recs[..k], recs[k..];
    }
  }

  /** A round that brings the receiver, in time, what a whole transmission has of its epoch, and reads its messages. */
  ghost predicate Brings(r: Receiver, s: Sender, sent: seq<Rec>, seen: set<nat>, round: Round, from: nat, to: nat) {
    && Playable(r, sent, round.schedule) && OnTime(sent, seen, round.schedule)
    && Harmless(r.rx.aead, sent, seen, round.schedule) && DeliversEpoch(sent, round.schedule, r.rx.epoch)
    && (forall n | r.readSeq <= n < r.readSeq + round.count :: Holds(s.msgs, from, to, n))
    && to <= |s.msgs| && forall w | from <= w < to :: s.msgs[w].epoch == r.rx.epoch
  }

  /** Such a round is one that the conversation theorem speaks of. */
  lemma BroughtFlows(r: Receiver, msgs: seq<Message>, s: Sender, previous: bool, attempts: seq<Attempt>,
      log: seq<Parsed>, seen: set<nat>, round: Round, from: nat, to: nat, part: seq<Rec>)
    requires Numbered(msgs) && s.Valid() && Carries(s.msgs, msgs) && Hears(r, s, previous)
    requires Brings(r, s, Flatten(SendAll(s, attempts).packets), seen, round, from, to)
    requires Steps(s.msgs, Cursor(from, 0), part) == Some(Cursor(to, 0))
    requires forall rec | rec in part :: rec in Flatten(SendAll(s, attempts).packets)
    ensures var sent := Flatten(SendAll(s, attempts).packets);
      && AllPlayable(r, sent, [round]) && Flows(r, log, msgs, sent, seen, [], [round])
      && AllHarmless(r, sent, seen, [round]) && Events(r, sent, [round]) ==
           Arrivals(r, sent, round.schedule) + Drain(round.count)
      && (CcsInRounds(r, sent, seen, [round]) <==> CcsComes(sent, seen, round.schedule))
  {
    hide Hears, SendAll, Flatten, Steps, Carries, OnTime, Harmless, Completed, Receivable, Holds, SeenAfter, Ignored,
      Arrivals, Drain, Numbered, CcsComes, Rec.Fits, Number;
    var sent := Flatten(SendAll(s, attempts).packets);
    EpochCompletes(s.msgs, from, to, r.rx.epoch, msgs, part, log, sent, round.schedule, r.readSeq,
      r.readSeq + round.count);
    forall j | 0 <= j < |round.schedule| && round.schedule[j].Delivery?
      ensures Receivable(r, msgs, sent[round.schedule[j].index])
    {
      SentIsReceivable(r, msgs, s, previous, attempts, round.schedule[j].index, []);
    }
    assert [] + round.schedule == round.schedule && [round][1..] == [];
    LaterPlayable(r, round.count, sent, []);
  }

  lemma BeforeAll(c: Conn, msgs: seq<Message>, sent: seq<Rec>, seen: set<nat>)
    requires Invariant(c, msgs) && OneNumberEach(sent)
    ensures Numbered(msgs) && AllSeen(sent, seen, [])
  {
    hide SlotsExplained, Rec.Fits, Number;
  }

  lemma BringsAlike(r: Receiver, t: Receiver, keys: seq<Aead>, s: Sender, sent: seq<Rec>, seen: set<nat>, round: Round,
      from: nat, to: nat)
    requires SameSetting(r, t) && Listens(r, keys, s.msgs) && Brings(r, s, sent, seen, round, from, to)
    ensures Listens(t, keys, s.msgs) && Brings(t, s, sent, seen, round, from, to)
    ensures Arrivals(t, sent, round.schedule) == Arrivals(r, sent, round.schedule)
  {
    hide WholeMessage, OnTime, Harmless, Holds, DeliversEpoch, Ignored, Rec.Fits, Playable;
    PlayableStays(r, t, sent, round.schedule);
  }

  /**
   A flight whose messages up to `w` were queued before a change of key and the others after it, sent again after it in
   whatever pieces: a receiver that is still in the old epoch reads the first part in one round, takes the
   ChangeCipherSpec and the new key, and reads the second part in the next.
   */
  lemma FlightCrossesKeys(aead: Aead, ops: seq<Op>, s: Sender, msgs: seq<Message>, attempts: seq<Attempt>, w: nat,
      c: Conn, seen: set<nat>, first: Round, later: Round)
    requires SendsAgain(aead, ops, s, msgs) && s.tx.epoch >= 1
    requires var sent := Flatten(SendAll(s, attempts).packets);
      && Steps(s.msgs, Cursor(0, 0), sent) == Some(Cursor(|s.msgs|, 0)) && w <= |s.msgs|
      && OneNumberEach(sent) && Remembers(c, sent, seen)
    requires Invariant(c, msgs) && !c.r.hasMessage && c.r.rx.epoch + 1 == s.tx.epoch
    requires Listens(c.r, KeysOf(aead, ops), s.msgs)
    requires Brings(c.r, s, Flatten(SendAll(s, attempts).packets), seen, first, 0, w)
    requires c.r.hasCcs || CcsComes(Flatten(SendAll(s, attempts).packets), seen, first.schedule)
    requires var t := NewKey(Later(c.r, first.count), LastKey(aead, ops));
      && Listens(t, KeysOf(aead, ops), s.msgs)
      && Brings(t, s, Flatten(SendAll(s, attempts).packets), {}, later, w, |s.msgs|)
    requires var sent := Flatten(SendAll(s, attempts).packets);
      var events := Arrivals(c.r, sent, first.schedule) + Drain(first.count);
      HonestRun(c, events, msgs) && var d := Run(c, events, msgs); d.r.Ring() && NothingLeft(d.r)
    ensures var sent := Flatten(SendAll(s, attempts).packets);
      var key := LastKey(aead, ops);
      var last := NewKey(Later(c.r, first.count), key);
      var events := (Arrivals(c.r, sent, first.schedule) + Drain(first.count)) +
        (Switch(key) + (Arrivals(last, sent, later.schedule) + Drain(later.count)));
      var k := c.r.readSeq + first.count + later.count;
      && HonestRun(c, events, msgs) && Unbroken(c, events, msgs)
      && k <= |msgs| && Run(c, events, msgs).out == msgs[..k]
  {
    hide RunEnabled, StateAfter, OneVersion, Listens, Hears, KeysOf, SendAll, Flatten, Steps, Carries, Invariant,
      Explained, Brings, HonestRun, Run, Unbroken, Arrivals, Drain, Remembers, OneNumberEach, NothingLeft, CcsComes,
      AllHarmless, AllPlayable, Flows, Events, CcsInRounds, Switch;
    var sent, keys := Flatten(SendAll(s, attempts).packets), KeysOf(aead, ops);
    var key := LastKey(aead, ops);
    BeforeAll(c, msgs, sent, seen);
    var a, b := SplitAt(s.msgs, sent, w);
    ListenerHears(aead, ops, s, msgs, c.r, true);
    BroughtFlows(c.r, msgs, s, true, attempts, c.log, seen, first, 0, w, a);
    ConversationSurvives(c.log, c, msgs, sent, seen, [], [first]);
    var d := Run(c, Events(c.r, sent, [first]), msgs);
    var t, u := NewKey(Later(c.r, first.count), key), NewKey(d.r, key);
    BringsAlike(t, u, keys, s, sent, {}, later, w, |s.msgs|);
    assert u.rx.epoch == s.tx.epoch;
    ListenerHears(aead, ops, s, msgs, u, false);
    BroughtFlows(u, msgs, s, false, attempts, d.log, {}, later, w, |s.msgs|, b);
    ConversationCrossesEpochs(c.log, c, msgs, sent, seen, [], [first], key, sent, [later]);
  }
}
