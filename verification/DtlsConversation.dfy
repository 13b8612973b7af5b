/**
 Deliveries and reads taking turns: a flight longer than the reassembly window, or several flights of an epoch, come
 through the channel round by round, each round starting where the one before left the replay window and the log.
 */
module DtlsConversation {
  import opened DtlsWire
  import opened DtlsReplay
  import opened DtlsRecord
  import opened DtlsReceiver
  import opened DtlsEndToEnd
  import opened DtlsDelivery

  // ----- Runs one after the other -----

  /** No arrival breaks the connection. */
  predicate Unbroken(c: Conn, events: seq<Event>, msgs: seq<Message>)
    requires HonestRun(c, events, msgs)
    decreases |events|
  {
    events == [] || ((events[0].Arrive? ==> Clean(c, events[0])) && Unbroken(Do(c, events[0]), events[1..], msgs))
  }

  lemma {:induction false} RunsJoin(c: Conn, a: seq<Event>, b: seq<Event>, msgs: seq<Message>)
    ensures HonestRun(c, a + b, msgs) <==> HonestRun(c, a, msgs) && HonestRun(Run(c, a, msgs), b, msgs)
    ensures HonestRun(c, a + b, msgs) ==>
      && Run(c, a + b, msgs) == Run(Run(c, a, msgs), b, msgs)
      && (Unbroken(c, a + b, msgs) <==> Unbroken(c, a, msgs) && Unbroken(Run(c, a, msgs), b, msgs))
    decreases |a|
  {
    hide Allowed, HonestEvent, Clean, Do;
    if a == [] {
      assert a + b == b;
    } else {
      assert (a + b)[1..] == a[1..] + b;
      if Allowed(c, a[0]) {
        RunsJoin(Do(c, a[0]), a[1..], b, msgs);
      }
    }
  }

  lemma {:induction false} UnbrokenIsClean(c: Conn, events: seq<Event>, msgs: seq<Message>)
    requires HonestRun(c, events, msgs) && forall i | 0 <= i < |events| :: events[i].Arrive?
    ensures Unbroken(c, events, msgs) <==> CleanRun(c, events, msgs)
    decreases |events|
  {
    hide Allowed, HonestEvent, Clean, Do;
    if events != [] {
      UnbrokenIsClean(Do(c, events[0]), events[1..], msgs);
    }
  }

  lemma {:induction false} AllArrive(r: Receiver, recs: seq<Rec>, schedule: seq<Delivery>)
    requires Playable(r, recs, schedule)
    ensures forall i | 0 <= i < |Arrivals(r, recs, schedule)| :: Arrivals(r, recs, schedule)[i].Arrive?
    decreases |schedule|
  {
    hide Ignored, Rec.Wire, Rec.Fits;
    if schedule != [] {
      AllArrive(r, recs, schedule[1..]);
    }
  }

  lemma {:induction false} QuietIsUnbroken(c: Conn, events: seq<Event>, msgs: seq<Message>)
    requires HonestRun(c, events, msgs) && forall i | 0 <= i < |events| :: !events[i].Arrive?
    ensures Unbroken(c, events, msgs)
    decreases |events|
  {
    hide Allowed, HonestEvent, Clean, Do;
    if events != [] {
      QuietIsUnbroken(Do(c, events[0]), events[1..], msgs);
    }
  }

  lemma {:induction false} DrainIsQuiet(k: nat)
    ensures forall i | 0 <= i < |Drain(k)| :: !Drain(k)[i].Arrive?
  {
    if k > 0 {
      DrainIsQuiet(k - 1);
    }
  }

  // ----- Rounds -----

  /** What comes out of the channel, and then how many messages the handshake reads. */
  datatype Round = Round(schedule: seq<Delivery>, count: nat)

  function Total(rounds: seq<Round>): nat {
    if rounds == [] then 0 else rounds[0].count + Total(rounds[1..])
  }

  ghost predicate AllPlayable(r: Receiver, recs: seq<Rec>, rounds: seq<Round>) {
    forall i | 0 <= i < |rounds| :: Playable(r, recs, rounds[i].schedule)
  }

  ghost function Events(r: Receiver, recs: seq<Rec>, rounds: seq<Round>): seq<Event>
    requires AllPlayable(r, recs, rounds)
    decreases |rounds|
  {
    if rounds == [] then []
    else (Arrivals(r, recs, rounds[0].schedule) + Drain(rounds[0].count)) + Events(r, recs, rounds[1..])
  }

  function Later(r: Receiver, k: nat): Receiver { r.(readSeq := r.readSeq + k) }

  lemma LaterPlayable(r: Receiver, k: nat, recs: seq<Rec>, rounds: seq<Round>)
    requires AllPlayable(r, recs, rounds)
    ensures AllPlayable(Later(r, k), recs, rounds) && Events(Later(r, k), recs, rounds) == Events(r, recs, rounds)
    decreases |rounds|
  {
    hide Arrivals;
    forall i | 0 <= i < |rounds|
      ensures Playable(Later(r, k), recs, rounds[i].schedule)
    {
      assert Playable(r, recs, rounds[i].schedule);
    }
    if rounds != [] {
      ArrivalsAlike(r, Later(r, k), recs, rounds[0].schedule);
      LaterPlayable(r, k, recs, rounds[1..]);
    }
  }

  /** What the channel hands over does not depend on the receiver. */
  lemma {:induction false} ArrivalsAlike(r: Receiver, t: Receiver, recs: seq<Rec>, schedule: seq<Delivery>)
    requires Playable(r, recs, schedule) && Playable(t, recs, schedule)
    ensures Arrivals(r, recs, schedule) == Arrivals(t, recs, schedule)
    decreases |schedule|
  {
    hide Ignored, Rec.Wire, Rec.Fits;
    if schedule != [] {
      ArrivalsAlike(r, t, recs, schedule[1..]);
    }
  }

  /**
   Each round delivers, in time, records that can be received by then, and what it reads has come by then, with what
   came in the rounds before (`past`) or was in the log when all began.
   */
  ghost predicate Flows(r: Receiver, log: seq<Parsed>, msgs: seq<Message>, recs: seq<Rec>, seen: set<nat>,
      past: seq<Delivery>, rounds: seq<Round>)
    requires AllPlayable(r, recs, rounds)
    decreases |rounds|
  {
    rounds == [] ||
    (var s, k := rounds[0].schedule, rounds[0].count;
     assert Playable(r, recs, s);
     LaterPlayable(r, k, recs, rounds[1..]);
     && AllReceivable(r, msgs, recs, s) && OnTime(recs, seen, s)
     && (forall n | r.readSeq <= n < r.readSeq + k :: Completed(log, recs, past + s, msgs, n))
     && Flows(Later(r, k), log, msgs, recs, SeenAfter(recs, seen, s), past + s, rounds[1..]))
  }

  /** No delivery of the rounds ends the connection. */
  ghost predicate AllHarmless(r: Receiver, recs: seq<Rec>, seen: set<nat>, rounds: seq<Round>)
    requires AllPlayable(r, recs, rounds)
    decreases |rounds|
  {
    rounds == [] ||
    (var s := rounds[0].schedule;
     assert Playable(r, recs, s);
     Harmless(r.rx.aead, recs, seen, s) && AllHarmless(r, recs, SeenAfter(recs, seen, s), rounds[1..]))
  }

  /** A new ChangeCipherSpec comes in one of the rounds. */
  ghost predicate CcsInRounds(r: Receiver, recs: seq<Rec>, seen: set<nat>, rounds: seq<Round>)
    requires AllPlayable(r, recs, rounds)
    decreases |rounds|
  {
    rounds != [] &&
    (var s := rounds[0].schedule;
     assert Playable(r, recs, s);
     CcsComes(recs, seen, s) || CcsInRounds(r, recs, SeenAfter(recs, seen, s), rounds[1..]))
  }

  // ----- The rounds go through -----

  /** All deliveries of `past` are among the numbers seen. */
  ghost predicate AllSeen(recs: seq<Rec>, seen: set<nat>, past: seq<Delivery>) {
    && (forall i | 0 <= i < |recs| :: recs[i].Fits())
    && forall i | 0 <= i < |recs| && DeliveredIn(past, i) :: Number(recs[i]) in seen
  }

  lemma SeenGrows(r: Receiver, recs: seq<Rec>, seen: set<nat>, past: seq<Delivery>, s: seq<Delivery>)
    requires AllSeen(recs, seen, past) && Playable(r, recs, s)
    ensures AllSeen(recs, SeenAfter(recs, seen, s), past + s)
  {
    hide Number, Ignored, Rec.Fits, SeenAfter;
    forall i | 0 <= i < |recs| && DeliveredIn(past + s, i)
      ensures Number(recs[i]) in SeenAfter(recs, seen, s)
    {
      DeliveredIsSeen(recs, seen, s, Number(recs[i]));
      var j :| 0 <= j < |past + s| && (past + s)[j].Delivery? && (past + s)[j].index == i;
      if j < |past| {
        assert DeliveredIn(past, i);
      }
    }
  }

  /** Reading on keeps the window and the log, so what has been taken stays taken. */
  lemma DrainRemembers(c: Conn, t: Conn, k: nat, recs: seq<Rec>, seen: set<nat>)
    requires Drained(c, t, k) && Remembers(c, recs, seen)
    ensures Remembers(t, recs, seen)
  {
    hide ParseFragment, Number, Rec.Fits, Represents;
  }

  /**
   One round: the connection lasts exactly if the deliveries are harmless; then they are taken, the messages are read,
   and all is as a next round needs it.
   */
  lemma RoundSurvives(log: seq<Parsed>, c: Conn, msgs: seq<Message>, recs: seq<Rec>, seen: set<nat>,
      past: seq<Delivery>, round: Round)
    requires Invariant(c, msgs) && !c.r.hasMessage && OneNumberEach(recs) && Remembers(c, recs, seen)
    requires log <= c.log && AllSeen(recs, seen, past) && Playable(c.r, recs, round.schedule)
    requires AllReceivable(c.r, msgs, recs, round.schedule) && OnTime(recs, seen, round.schedule)
    requires forall n | c.r.readSeq <= n < c.r.readSeq + round.count ::
      Completed(log, recs, past + round.schedule, msgs, n)
    ensures var events := Arrivals(c.r, recs, round.schedule) + Drain(round.count);
      && (HonestRun(c, events, msgs) && Unbroken(c, events, msgs) <==>
            Harmless(c.r.rx.aead, recs, seen, round.schedule))
      && (Harmless(c.r.rx.aead, recs, seen, round.schedule) ==>
           var t := Run(c, events, msgs);
           && Invariant(t, msgs) && SameSetting(Later(c.r, round.count), t.r) && c.log <= t.log
           && Remembers(t, recs, SeenAfter(recs, seen, round.schedule))
           && t.r.hasCcs == (c.r.hasCcs || CcsComes(recs, seen, round.schedule)))
  {
    hide Invariant, AllReceivable, Remembers, Rec.Fits, Number, Ignored, Arrivals, Drain, HonestRun, Run, CleanRun,
      Unbroken, OnTime, Completed, Arrived, SeenAfter, AllSeen, Harmless, CcsComes;
    var s, k := round.schedule, round.count;
    ScheduleIsTaken(c, msgs, recs, seen, s);
    var arrivals := Arrivals(c.r, recs, s);
    AllArrive(c.r, recs, s);
    UnbrokenIsClean(c, arrivals, msgs);
    RunsJoin(c, arrivals, Drain(k), msgs);
    if Harmless(c.r.rx.aead, recs, seen, s) {
      var d := Run(c, arrivals, msgs);
      var later := SeenAfter(recs, seen, s);
      SeenGrows(c.r, recs, seen, past, s);
      AllArrived(log, d, msgs, recs, later, past + s, k);
      ArrivedMessagesAreDelivered(d, k, msgs);
      RunInvariant(d, Drain(k), msgs);
      DrainRemembers(d, Run(d, Drain(k), msgs), k, recs, later);
      DrainIsQuiet(k);
      QuietIsUnbroken(d, Drain(k), msgs);
    }
  }

  lemma AllArrived(log: seq<Parsed>, d: Conn, msgs: seq<Message>, recs: seq<Rec>, seen: set<nat>, past: seq<Delivery>,
      k: nat)
    requires Invariant(d, msgs) && Remembers(d, recs, seen) && log <= d.log && AllSeen(recs, seen, past)
    requires forall n | d.r.readSeq <= n < d.r.readSeq + k :: Completed(log, recs, past, msgs, n)
    ensures forall n | d.r.readSeq <= n < d.r.readSeq + k :: Arrived(msgs, d.log, n)
  {
    hide Invariant, Remembers, Completed, Arrived, Number, Rec.Fits;
    forall n | d.r.readSeq <= n < d.r.readSeq + k
      ensures Arrived(msgs, d.log, n)
    {
      CompletedHasArrived(log, d, msgs, recs, seen, past, n);
    }
  }

  lemma FlowsStay(r: Receiver, t: Receiver, log: seq<Parsed>, msgs: seq<Message>, recs: seq<Rec>, seen: set<nat>,
      past: seq<Delivery>, rounds: seq<Round>)
    requires AllPlayable(r, recs, rounds) && Flows(r, log, msgs, recs, seen, past, rounds) && SameSetting(r, t)
    ensures AllPlayable(t, recs, rounds) && Events(t, recs, rounds) == Events(r, recs, rounds)
    ensures Flows(t, log, msgs, recs, seen, past, rounds)
    decreases |rounds|
  {
    hide AllReceivable, OnTime, Completed, Arrivals, SeenAfter, Ignored, Rec.Fits;
    forall i | 0 <= i < |rounds|
      ensures Playable(t, recs, rounds[i].schedule)
    {
      PlayableStays(r, t, recs, rounds[i].schedule);
    }
    if rounds != [] {
      var s, k := rounds[0].schedule, rounds[0].count;
      PlayableStays(r, t, recs, s);
      SettingKeeps(r, t, msgs, recs, s);
      LaterPlayable(r, k, recs, rounds[1..]);
      LaterPlayable(t, k, recs, rounds[1..]);
      FlowsStay(Later(r, k), Later(t, k), log, msgs, recs, SeenAfter(recs, seen, s), past + s, rounds[1..]);
    }
  }

  /** `t` is `c` once `k` more messages have been read, with what has come meanwhile. */
  ghost predicate ReadOn(c: Conn, t: Conn, k: nat, msgs: seq<Message>) {
    && Invariant(t, msgs) && !t.r.hasMessage && c.log <= t.log && SameSetting(Later(c.r, k), t.r)
    && c.r.readSeq + k <= |msgs| && t.out == msgs[..c.r.readSeq + k]
  }

  /**
   However many rounds: the connection lasts exactly if all deliveries are harmless; and then exactly the messages that
   the rounds read are handed out, in order, each as soon as its bytes have come in any of the rounds so far, and a
   ChangeCipherSpec is pending if one was or one came.
   */
  lemma {:induction false} ConversationSurvives(log: seq<Parsed>, c: Conn, msgs: seq<Message>, recs: seq<Rec>,
      seen: set<nat>, past: seq<Delivery>, rounds: seq<Round>)
    requires Invariant(c, msgs) && !c.r.hasMessage && OneNumberEach(recs) && Remembers(c, recs, seen)
    requires log <= c.log && AllSeen(recs, seen, past)
    requires AllPlayable(c.r, recs, rounds) && Flows(c.r, log, msgs, recs, seen, past, rounds)
    ensures var events := Events(c.r, recs, rounds);
      && (HonestRun(c, events, msgs) && Unbroken(c, events, msgs) <==> AllHarmless(c.r, recs, seen, rounds))
      && (AllHarmless(c.r, recs, seen, rounds) ==>
            && ReadOn(c, Run(c, events, msgs), Total(rounds), msgs)
            && Run(c, events, msgs).r.hasCcs == (c.r.hasCcs || CcsInRounds(c.r, recs, seen, rounds)))
    decreases |rounds|
  {
    hide Invariant, AllReceivable, Remembers, Ignored, Rec.Fits, Number, Arrivals, HonestRun, Run, Unbroken, OnTime,
      Completed, SeenAfter, AllSeen, Harmless, CcsComes;
    if rounds == [] {
      NothingMore(c, msgs);
    } else {
      var s, k := rounds[0].schedule, rounds[0].count;
      assert Playable(c.r, recs, s);
      var first := Arrivals(c.r, recs, s) + Drain(k);
      RoundSurvives(log, c, msgs, recs, seen, past, rounds[0]);
      RunsJoin(c, first, Events(c.r, recs, rounds[1..]), msgs);
      if Harmless(c.r.rx.aead, recs, seen, s) {
        var t := Run(c, first, msgs);
        SeenGrows(c.r, recs, seen, past, s);
        LaterPlayable(c.r, k, recs, rounds[1..]);
        FlowsStay(Later(c.r, k), t.r, log, msgs, recs, SeenAfter(recs, seen, s), past + s, rounds[1..]);
        HarmlessAlike(c.r, t.r, recs, SeenAfter(recs, seen, s), rounds[1..]);
        ConversationSurvives(log, t, msgs, recs, SeenAfter(recs, seen, s), past + s, rounds[1..]);
      }
    }
  }

  lemma {:induction false} HarmlessAlike(r: Receiver, t: Receiver, recs: seq<Rec>, seen: set<nat>, rounds: seq<Round>)
    requires AllPlayable(r, recs, rounds) && AllPlayable(t, recs, rounds) && r.rx.aead == t.rx.aead
    ensures AllHarmless(r, recs, seen, rounds) == AllHarmless(t, recs, seen, rounds)
    ensures CcsInRounds(r, recs, seen, rounds) == CcsInRounds(t, recs, seen, rounds)
    decreases |rounds|
  {
    hide Harmless, CcsComes, SeenAfter, Ignored, Rec.Fits;
    if rounds != [] {
      assert Playable(r, recs, rounds[0].schedule);
      HarmlessAlike(r, t, recs, SeenAfter(recs, seen, rounds[0].schedule), rounds[1..]);
    }
  }

  lemma NothingMore(c: Conn, msgs: seq<Message>)
    requires Invariant(c, msgs) && !c.r.hasMessage
    ensures HonestRun(c, [], msgs) && Unbroken(c, [], msgs) && ReadOn(c, Run(c, [], msgs), 0, msgs)
    ensures Run(c, [], msgs) == c
  {
    hide SlotsExplained;
  }

  /** So from a new connection. */
  lemma {:induction false} NewConversationSurvives(aead: Aead, maxMessageLen: nat, msgs: seq<Message>, recs: seq<Rec>,
      rounds: seq<Round>)
    requires Numbered(msgs) && OneNumberEach(recs)
    requires var r := Start(aead, maxMessageLen).r;
      AllPlayable(r, recs, rounds) && Flows(r, [], msgs, recs, {}, [], rounds)
    ensures var c := Start(aead, maxMessageLen);
      var events := Events(c.r, recs, rounds);
      && (HonestRun(c, events, msgs) && Unbroken(c, events, msgs) <==> AllHarmless(c.r, recs, {}, rounds))
      && (AllHarmless(c.r, recs, {}, rounds) ==>
            Total(rounds) <= |msgs| && Run(c, events, msgs).out == msgs[..Total(rounds)])
  {
    hide Invariant, AllReceivable, Playable, Arrivals, HonestRun, Run, Unbroken, OnTime, Completed, SeenAfter, Flows,
      Events, Number, Taken, AllHarmless;
    StartInvariant(aead, maxMessageLen, msgs);
    ConversationSurvives([], Start(aead, maxMessageLen), msgs, recs, {}, [], rounds);
  }

  // ----- From one epoch to the next -----

  /** The receiver once a pending ChangeCipherSpec is used and the key is changed. */
  function NewKey(r: Receiver, aead: Aead): Receiver {
    r.(hasCcs := false, rx := r.rx.(epoch := r.rx.epoch + 1, window := EMPTY_WINDOW, aead := aead))
  }

  /** No message is left over. */
  ghost predicate NothingLeft(r: Receiver)
    requires r.Ring()
  {
    forall n: nat :: !Leftover(r, n)
  }

  function Switch(aead: Aead): seq<Event> { [AwaitCcs([]), Rekey(aead)] }

  lemma UsesCcs(c: Conn, msgs: seq<Message>)
    requires Invariant(c, msgs) && !c.r.hasMessage && c.r.hasCcs
    ensures var e := AwaitCcs([]);
      && Allowed(c, e) && HonestEvent(c, e, msgs) && Do(c, e) == c.(r := c.r.(hasCcs := false))
      && Invariant(Do(c, e), msgs)
  {
    hide Explained;
    assert !OpenRecord(c.r.rx, []).result.Opened?;
    StepInvariant(c, AwaitCcs([]), msgs);
  }

  lemma TakesKey(c: Conn, msgs: seq<Message>, aead: Aead)
    requires Invariant(c, msgs) && !c.r.hasCcs && forall n: nat :: !Leftover(c.r, n)
    ensures var e := Rekey(aead);
      && Allowed(c, e) && HonestEvent(c, e, msgs) && Do(c, e) == c.(r := NewKey(c.r, aead)) && Invariant(Do(c, e), msgs)
  {
    hide Explained, Leftover, HasUnprocessed;
    EpochChangeNeedsEmptyBuffer(c.r, aead);
    StepInvariant(c, Rekey(aead), msgs);
  }

  /** A change of key starts the replay window afresh, and all that has been taken stays. */
  lemma SwitchSurvives(c: Conn, msgs: seq<Message>, aead: Aead, recs: seq<Rec>)
    requires Invariant(c, msgs) && !c.r.hasMessage && c.r.Ring() && c.r.hasCcs && NothingLeft(c.r)
    requires forall i | 0 <= i < |recs| :: recs[i].Fits()
    ensures HonestRun(c, Switch(aead), msgs) && Unbroken(c, Switch(aead), msgs)
    ensures var t := Run(c, Switch(aead), msgs);
      && t == c.(r := NewKey(c.r, aead)) && Invariant(t, msgs)
      && Remembers(t, recs, {}) && AllSeen(recs, {}, [])
  {
    hide Invariant, HonestEvent, Allowed, Do, Taken, Number, Rec.Fits;
    UsesCcs(c, msgs);
    var d := c.(r := c.r.(hasCcs := false));
    forall n: nat
      ensures !Leftover(d.r, n)
    {
      assert Leftover(d.r, n) == Leftover(c.r, n);
    }
    TakesKey(d, msgs, aead);
    assert Switch(aead)[1..] == [Rekey(aead)] && [Rekey(aead)][1..] == [];
    var t := Do(d, Rekey(aead));
    assert HonestRun(t, [], msgs) && Unbroken(t, [], msgs) && Run(t, [], msgs) == t;
    assert HonestRun(d, [Rekey(aead)], msgs) && Unbroken(d, [Rekey(aead)], msgs) && Run(d, [Rekey(aead)], msgs) == t;
  }

  /**
   Over a change of key: what is read in one epoch, the change, and what is read in the next make one run, and all the
   messages read are handed out in order. So a flight gets through whose end is under a new key. It takes that a
   ChangeCipherSpec came in one of the rounds, and that no message is left over.
   */
  lemma ConversationCrossesEpochs(log: seq<Parsed>, c: Conn, msgs: seq<Message>, recs: seq<Rec>, seen: set<nat>,
      past: seq<Delivery>, rounds: seq<Round>, aead: Aead, laterRecs: seq<Rec>, laterRounds: seq<Round>)
    requires Invariant(c, msgs) && !c.r.hasMessage && OneNumberEach(recs) && Remembers(c, recs, seen)
    requires log <= c.log && AllSeen(recs, seen, past)
    requires AllPlayable(c.r, recs, rounds) && Flows(c.r, log, msgs, recs, seen, past, rounds)
    requires AllHarmless(c.r, recs, seen, rounds) && OneNumberEach(laterRecs)
    requires c.r.hasCcs || CcsInRounds(c.r, recs, seen, rounds)
    requires HonestRun(c, Events(c.r, recs, rounds), msgs) &&
      var d := Run(c, Events(c.r, recs, rounds), msgs);
      && d.r.Ring() && NothingLeft(d.r) && AllPlayable(NewKey(d.r, aead), laterRecs, laterRounds)
      && Flows(NewKey(d.r, aead), d.log, msgs, laterRecs, {}, [], laterRounds)
      && AllHarmless(NewKey(d.r, aead), laterRecs, {}, laterRounds)
    ensures var d := Run(c, Events(c.r, recs, rounds), msgs);
      var events := Events(c.r, recs, rounds) + (Switch(aead) + Events(NewKey(d.r, aead), laterRecs, laterRounds));
      var k := c.r.readSeq + Total(rounds) + Total(laterRounds);
      && HonestRun(c, events, msgs) && Unbroken(c, events, msgs)
      && k <= |msgs| && Run(c, events, msgs).out == msgs[..k]
  {
    hide Invariant, Remembers, HonestRun, Run, Unbroken, Flows, AllSeen, AllHarmless, CcsInRounds, Events, NothingLeft,
      AllPlayable,
      Number, Switch;
    ConversationSurvives(log, c, msgs, recs, seen, past, rounds);
    var first := Events(c.r, recs, rounds);
    var d := Run(c, first, msgs);
    SwitchSurvives(d, msgs, aead, laterRecs);
    var t := Run(d, Switch(aead), msgs);
    ConversationSurvives(d.log, t, msgs, laterRecs, {}, [], laterRounds);
    var last := Events(NewKey(d.r, aead), laterRecs, laterRounds);
    RunsJoin(d, Switch(aead), last, msgs);
    RunsJoin(c, first, Switch(aead) + last, msgs);
  }
}
