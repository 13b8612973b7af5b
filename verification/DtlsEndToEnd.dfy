/**
 The DTLS handshake transport end to end (sections 4.2.2 to 4.2.6 of RFC 6347): a receiver fed by a
 channel that loses, repeats, reorders and overlaps what an honest sender sealed. Whatever the channel
 does, the receiver hands out the sender's messages, each once and in order, and it holds exactly what the
 fragments that reached it in its window make up.
 */
module DtlsEndToEnd {
  import opened Wrappers
  import opened DtlsWire
  import opened DtlsReassembly
  import opened DtlsReplay
  import opened DtlsRecord
  import opened DtlsReceiver

  // ----- What an honest sender sends -----

  /** The messages of one side of a handshake are numbered from zero. */
  predicate Numbered(msgs: seq<Message>) {
    forall n | 0 <= n < |msgs| :: msgs[n].Fits() && msgs[n].seqNum == n
  }

  /** A fragment of one of the messages: any part of its body, under the matching header. */
  predicate Honest(p: Parsed, msgs: seq<Message>) {
    && p.hdr.seqNum < |msgs|
    && var m := msgs[p.hdr.seqNum];
       && p.hdr.typ == m.typ && p.hdr.msgLen == |m.body| && |p.body| == p.hdr.fragLen
       && p.hdr.fragOff + p.hdr.fragLen <= |m.body|
       && p.body == m.body[p.hdr.fragOff..p.hdr.fragOff + p.hdr.fragLen]
  }

  /** A handshake record made of such fragments. */
  predicate HonestText(text: Bytes, msgs: seq<Message>)
    decreases |text|
  {
    text == [] || (ParseFragment(text).Some?
      && Honest(ParseFragment(text).value, msgs) && HonestText(ParseFragment(text).value.rest, msgs))
  }

  /**
   Authenticity: the input may be anything, but if it opens as a handshake record under the current key,
   then the sender sealed it.
   */
  predicate HonestInput(r: Receiver, input: Bytes, msgs: seq<Message>) {
    var o := OpenRecord(r.rx, input).result;
    o.Opened? && o.typ == RT_HANDSHAKE ==> HonestText(o.plaintext, msgs)
  }

  // ----- What the receiver has accepted -----

  /** The fragments of a record that are taken, up to the first that ends the connection. */
  function Applied(r: Receiver, text: Bytes): seq<Parsed>
    requires r.Ring()
    decreases |text|
  {
    if text == [] || ParseFragment(text).None? then []
    else
      var p := ParseFragment(text).value;
      match ProcessFragment(r, p.hdr, p.body)
      case FragError(_, _) => []
      case FragOk(r') => (if InWindow(r, p.hdr.seqNum) then [p] else []) + Applied(r', p.rest)
  }

  function AppliedBy(r: Receiver, input: Bytes): seq<Parsed>
    requires r.Ring()
  {
    var o := OpenRecord(r.rx, input);
    if o.result.Opened? && o.result.typ == RT_HANDSHAKE then Applied(r.(rx := o.rx), o.result.plaintext) else []
  }

  /** The parts of message `n` among the fragments taken so far. */
  function PiecesFor(log: seq<Parsed>, n: nat): seq<Piece> {
    if log == [] then []
    else
      var k := |log| - 1;
      var front := PiecesFor(log[..k], n);
      if log[k].hdr.seqNum == n then front + [Piece(log[k].hdr.fragOff, log[k].body)] else front
  }

  lemma PiecesSnoc(log: seq<Parsed>, p: Parsed, n: nat)
    ensures PiecesFor(log + [p], n) ==
      PiecesFor(log, n) + if p.hdr.seqNum == n then [Piece(p.hdr.fragOff, p.body)] else []
  {
    assert (log + [p])[..|log|] == log;
  }

  lemma {:induction false} PiecesAreHonest(log: seq<Parsed>, msgs: seq<Message>, n: nat)
    requires AllHonest(log, msgs) && n < |msgs|
    ensures PiecesOf(PiecesFor(log, n), msgs[n].body)
  {
    if log != [] {
      var k := |log| - 1;
      assert Honest(log[k], msgs);
      PiecesAreHonest(log[..k], msgs, n);
    }
  }

  /** The pieces of a message are those of its fragments in the log, and no others. */
  lemma {:induction false} PieceIffLogged(log: seq<Parsed>, n: nat, q: Piece)
    ensures q in PiecesFor(log, n) <==>
      exists k :: 0 <= k < |log| && log[k].hdr.seqNum == n && q == Piece(log[k].hdr.fragOff, log[k].body)
  {
    if log != [] {
      var k := |log| - 1;
      PieceIffLogged(log[..k], n, q);
      if q in PiecesFor(log[..k], n) {
        var j :| 0 <= j < k && log[..k][j].hdr.seqNum == n && q == Piece(log[..k][j].hdr.fragOff, log[..k][j].body);
        assert log[j].hdr.seqNum == n;
      }
      if j :| 0 <= j < |log| && log[j].hdr.seqNum == n && q == Piece(log[j].hdr.fragOff, log[j].body) {
        assert j < k ==> log[..k][j] == log[j];
      }
    }
  }

  predicate AllHonest(log: seq<Parsed>, msgs: seq<Message>) {
    forall k | 0 <= k < |log| :: Honest(log[k], msgs)
  }

  // ----- The invariant -----

  /** What the fragments taken so far make of message `n`; the message does not exist before its first. */
  function Rebuilt(m: Message, pieces: seq<Piece>): Option<Frag>
    requires m.Fits() && PiecesOf(pieces, m.body)
  {
    if pieces == [] then None else Some(Assemble(NewFrag(m.Header()), pieces))
  }

  function Expected(msgs: seq<Message>, log: seq<Parsed>, n: nat): Option<Frag>
    requires Numbered(msgs) && AllHonest(log, msgs)
  {
    if n >= |msgs| then None
    else
      PiecesAreHonest(log, msgs, n);
      Rebuilt(msgs[n], PiecesFor(log, n))
  }

  /** Every slot of the window holds exactly what the accepted fragments of its message make up. */
  predicate Explained(r: Receiver, msgs: seq<Message>, log: seq<Parsed>) {
    && r.Ring() && Numbered(msgs) && AllHonest(log, msgs) && r.readSeq <= |msgs|
    && (forall k | 0 <= k < |log| :: log[k].hdr.seqNum < r.readSeq + MAX_HANDSHAKE_FLIGHT)
    && SlotsExplained(r, msgs, log)
  }

  predicate SlotsExplained(r: Receiver, msgs: seq<Message>, log: seq<Parsed>)
    requires r.Ring() && Numbered(msgs) && AllHonest(log, msgs)
  {
    forall n | r.readSeq <= n < r.readSeq + MAX_HANDSHAKE_FLIGHT :: r.Slot(n) == Expected(msgs, log, n)
  }

  lemma {:induction false} AssembleSnoc(f: Frag, pieces: seq<Piece>, p: Piece)
    requires AllFit(pieces, |f.bytes|) && p.off + |p.body| <= |f.bytes|
    ensures AllFit(pieces + [p], |f.bytes|)
    ensures var g := Assemble(f, pieces);
      Assemble(f, pieces + [p]) == if g.Complete() then g else g.Put(p.off, p.body)
    decreases |pieces|
  {
    if pieces == [] {
      assert [] + [p] == [p];
    } else {
      var q := pieces[0];
      AssembleSnoc(if f.Complete() then f else f.Put(q.off, q.body), pieces[1..], p);
      assert (pieces + [p])[1..] == pieces[1..] + [p];
    }
  }

  // ----- One fragment, one record -----

  function OrNew(f: Option<Frag>, h: HmHeader): Frag {
    if f.Some? then f.value else NewFrag(h)
  }

  /** What an honest fragment does to its message. */
  lemma ExpectedSnoc(msgs: seq<Message>, log: seq<Parsed>, p: Parsed)
    requires Numbered(msgs) && AllHonest(log, msgs) && Honest(p, msgs)
    ensures AllHonest(log + [p], msgs)
    ensures forall n: nat | n != p.hdr.seqNum :: Expected(msgs, log + [p], n) == Expected(msgs, log, n)
    ensures var n := p.hdr.seqNum;
      var f := OrNew(Expected(msgs, log, n), p.hdr);
      && |f.bytes| == |msgs[n].body| && f.typ == p.hdr.typ && f.seqNum == n
      && Expected(msgs, log + [p], n) == Some(if f.Complete() then f else f.Put(p.hdr.fragOff, p.body))
  {
    hide Assemble, PiecesFor;
    var n := p.hdr.seqNum;
    assert AllHonest(log + [p], msgs);
    forall k: nat
      ensures PiecesFor(log + [p], k)
           == PiecesFor(log, k) + if p.hdr.seqNum == k then [Piece(p.hdr.fragOff, p.body)] else []
    {
      PiecesSnoc(log, p, k);
    }
    forall k: nat | k != n
      ensures Expected(msgs, log + [p], k) == Expected(msgs, log, k)
    {
      assert PiecesFor(log, k) + [] == PiecesFor(log, k);
    }
    PiecesAreHonest(log, msgs, n);
    assert NewFrag(msgs[n].Header()) == NewFrag(p.hdr);
    AssembleSnoc(NewFrag(p.hdr), PiecesFor(log, n), Piece(p.hdr.fragOff, p.body));
    AssembleNone(NewFrag(p.hdr));
  }

  lemma AssembleNone(f: Frag)
    ensures Assemble(f, []) == f
  {
  }

  /** An honest fragment in the window joins the log; any other leaves the buffer alone. */
  lemma FragmentExplained(r: Receiver, msgs: seq<Message>, log: seq<Parsed>, p: Parsed)
    requires Explained(r, msgs, log) && Honest(p, msgs) && p.hdr.Fits() && |p.body| == p.hdr.fragLen
    ensures var o := ProcessFragment(r, p.hdr, p.body);
      if o.FragOk? && InWindow(r, p.hdr.seqNum) then Explained(o.r, msgs, log + [p]) else o.r == r
  {
    hide Expected, NewFrag, Frag.Put, Frag.Complete;
    var n := p.hdr.seqNum;
    ExpectedSnoc(msgs, log, p);
    var o := ProcessFragment(r, p.hdr, p.body);
    if o.FragOk? && InWindow(r, n) {
      assert r.Slot(n) == Expected(msgs, log, n);
      assert o.r.Slot(n) == Expected(msgs, log + [p], n);
      forall k | r.readSeq <= k < r.readSeq + MAX_HANDSHAKE_FLIGHT
        ensures o.r.Slot(k) == Expected(msgs, log + [p], k)
      {
        if k != n {
          if k % MAX_HANDSHAKE_FLIGHT == n % MAX_HANDSHAKE_FLIGHT {
            SlotsDiffer(r.readSeq, k, n);
          }
          assert r.Slot(k) == Expected(msgs, log, k);
        }
      }
    }
  }

  lemma {:induction false} TextExplained(r: Receiver, msgs: seq<Message>, log: seq<Parsed>, text: Bytes)
    requires Explained(r, msgs, log) && HonestText(text, msgs)
    ensures Explained(ProcessFragments(r, text).r, msgs, log + Applied(r, text))
    decreases |text|
  {
    hide ProcessFragment, ParseFragment, Honest, Expected, Explained;
    assert log + [] == log;
    if text != [] {
      var p := ParseFragment(text).value;
      ExplainedRing(r, msgs, log);
      FragmentExplained(r, msgs, log, p);
      match ProcessFragment(r, p.hdr, p.body)
      case FragError(_, _) =>
      case FragOk(r') =>
        var step := if InWindow(r, p.hdr.seqNum) then [p] else [];
        TextExplained(r', msgs, log + step, p.rest);
        assert log + step + Applied(r', p.rest) == log + Applied(r, text);
    }
  }

  lemma ExplainedRing(r: Receiver, msgs: seq<Message>, log: seq<Parsed>)
    requires Explained(r, msgs, log)
    ensures r.Ring() && r.readSeq <= |msgs|
  {
  }

  /** The invariant speaks of the buffer and the window only. */
  lemma ExplainedSame(r: Receiver, t: Receiver, msgs: seq<Message>, log: seq<Parsed>)
    requires Explained(r, msgs, log) && t.slots == r.slots && t.readSeq == r.readSeq
    ensures Explained(t, msgs, log)
  {
    hide Expected, AllHonest, Numbered;
    forall n | t.readSeq <= n < t.readSeq + MAX_HANDSHAKE_FLIGHT
      ensures t.Slot(n) == Expected(msgs, log, n)
    {
      assert r.Slot(n) == Expected(msgs, log, n);
    }
  }

  /** Whatever arrives, the buffer stays explained by the fragments taken. */
  lemma ArrivalExplained(r: Receiver, msgs: seq<Message>, log: seq<Parsed>, input: Bytes)
    requires Explained(r, msgs, log) && HonestInput(r, input, msgs)
    ensures Explained(OpenHandshake(r, input).r, msgs, log + AppliedBy(r, input))
  {
    hide OpenRecord, ProcessFragments, Applied, Explained, HonestText;
    ExplainedRing(r, msgs, log);
    assert log + [] == log;
    var o := OpenRecord(r.rx, input);
    var r1 := r.(rx := o.rx);
    ExplainedSame(r, r1, msgs, log);
    if o.result.Opened? {
      if o.result.typ == RT_HANDSHAKE {
        TextExplained(r1, msgs, log, o.result.plaintext);
      }
      ExplainedSame(r, r1.(hasCcs := true), msgs, log);
    }
  }

  // ----- What can be handed out -----

  /** All bytes of message `n` are covered by the fragments taken, and at least one fragment was. */
  predicate Arrived(msgs: seq<Message>, log: seq<Parsed>, n: nat) {
    && n < |msgs| && PiecesFor(log, n) != []
    && forall i | 0 <= i < |msgs[n].body| :: CoveredBy(PiecesFor(log, n), i)
  }

  /**
   The receiver hands out a message exactly when all of it has arrived, and then it is the sender's next
   message, byte for byte.
   */
  lemma GetIsNextMessage(r: Receiver, msgs: seq<Message>, log: seq<Parsed>)
    requires Explained(r, msgs, log)
    ensures r.CurrentComplete() <==> Arrived(msgs, log, r.readSeq)
    ensures GetMessage(r).1 == if Arrived(msgs, log, r.readSeq) then Some(msgs[r.readSeq]) else None
  {
    hide Assemble, PiecesFor;
    var n := r.readSeq;
    assert r.Slot(n) == Expected(msgs, log, n);
    if n < |msgs| && PiecesFor(log, n) != [] {
      var m, pieces := msgs[n], PiecesFor(log, n);
      PiecesAreHonest(log, msgs, n);
      AssembledIsCovered(NewFrag(m.Header()), pieces);
      HonestPiecesRebuild(NewFrag(m.Header()), pieces, m.body);
    }
  }

  /** Reading on frees one slot, which is then that of the number that enters the window. */
  lemma SlotAfterNext(r: Receiver, n: nat)
    requires r.Valid() && r.hasMessage && r.readSeq < n <= r.readSeq + MAX_HANDSHAKE_FLIGHT
    ensures NextMessage(r).Slot(n) == if n < r.readSeq + MAX_HANDSHAKE_FLIGHT then r.Slot(n) else None
  {
    if n < r.readSeq + MAX_HANDSHAKE_FLIGHT {
      if n % MAX_HANDSHAKE_FLIGHT == r.readSeq % MAX_HANDSHAKE_FLIGHT {
        SlotsDiffer(r.readSeq, n, r.readSeq);
      }
    } else {
      SameSlot(r.readSeq);
    }
  }

  lemma SameSlot(n: nat)
    ensures (n + MAX_HANDSHAKE_FLIGHT) % MAX_HANDSHAKE_FLIGHT == n % MAX_HANDSHAKE_FLIGHT
  {
  }

  /** Moving on keeps the buffer explained: the slot freed is the one the window gains. */
  lemma NextExplained(r: Receiver, msgs: seq<Message>, log: seq<Parsed>)
    requires Explained(r, msgs, log) && r.Valid() && r.hasMessage
    ensures Explained(NextMessage(r), msgs, log) && r.readSeq < |msgs|
  {
    hide Expected, Assemble, NextMessage, Receiver.Slot;
    GetIsNextMessage(r, msgs, log);
    NextState(r);
    var t := NextMessage(r);
    forall n | t.readSeq <= n < t.readSeq + MAX_HANDSHAKE_FLIGHT
      ensures t.Slot(n) == Expected(msgs, log, n)
    {
      SlotAfterNext(r, n);
      if n < r.readSeq + MAX_HANDSHAKE_FLIGHT {
        assert r.Slot(n) == Expected(msgs, log, n);
      } else {
        NothingBeyondWindow(msgs, log, n);
      }
    }
  }

  lemma NextState(r: Receiver)
    requires r.Valid() && r.hasMessage
    ensures NextMessage(r).Valid() && NextMessage(r).readSeq == r.readSeq + 1
  {
  }

  lemma NothingBeyondWindow(msgs: seq<Message>, log: seq<Parsed>, n: nat)
    requires Numbered(msgs) && AllHonest(log, msgs) && forall k | 0 <= k < |log| :: log[k].hdr.seqNum < n
    ensures Expected(msgs, log, n) == None
  {
    if PiecesFor(log, n) != [] {
      PieceIffLogged(log, n, PiecesFor(log, n)[0]);
    }
  }

  // ----- Whole connections -----

  /** What happens to a connection: input arrives, or the handshake asks for a message or a new key. */
  datatype Event =
    | Arrive(input: Bytes)
    | AwaitCcs(input: Bytes)
    | Get
    | Next
    | Rekey(aead: Aead)

  /** The receiver, the fragments it has taken and the messages the handshake has finished with. */
  datatype Conn = Conn(r: Receiver, log: seq<Parsed>, out: seq<Message>)

  predicate Allowed(c: Conn, e: Event) {
    c.r.Valid() && (e.Next? ==> c.r.hasMessage)
  }

  function Do(c: Conn, e: Event): (d: Conn)
    requires Allowed(c, e)
    ensures d.r.Valid()
  {
    match e
    case Arrive(input) =>
      OpenKeepsValid(c.r, input);
      Conn(OpenHandshake(c.r, input).r, c.log + AppliedBy(c.r, input), c.out)
    case AwaitCcs(input) =>
      OpenKeepsValid(c.r, input);
      Conn(OpenChangeCipherSpec(c.r, input).r, if c.r.hasCcs then c.log else c.log + AppliedBy(c.r, input), c.out)
    case Get => c.(r := GetMessage(c.r).0)
    case Next => Conn(NextMessage(c.r), c.log, c.out + [c.r.Slot(c.r.readSeq).value.AsMessage()])
    case Rekey(aead) => c.(r := SetReadState(c.r, aead).0)
  }

  predicate HonestEvent(c: Conn, e: Event, msgs: seq<Message>) {
    match e
    case Arrive(input) => HonestInput(c.r, input, msgs)
    case AwaitCcs(input) => HonestInput(c.r, input, msgs)
    case _ => true
  }

  /** A run in which every key is shared with an honest sender of `msgs`. */
  predicate HonestRun(c: Conn, events: seq<Event>, msgs: seq<Message>)
    decreases |events|
  {
    events == [] || (Allowed(c, events[0]) && HonestEvent(c, events[0], msgs)
      && HonestRun(Do(c, events[0]), events[1..], msgs))
  }

  function Run(c: Conn, events: seq<Event>, msgs: seq<Message>): Conn
    requires HonestRun(c, events, msgs)
    decreases |events|
  {
    if events == [] then c else Run(Do(c, events[0]), events[1..], msgs)
  }

  predicate Invariant(c: Conn, msgs: seq<Message>) {
    c.r.Valid() && Explained(c.r, msgs, c.log) && c.out == msgs[..c.r.readSeq]
  }

  const EMPTY_BUFFER: seq<Option<Frag>> := [None, None, None, None, None, None, None]

  function Start(aead: Aead, maxMessageLen: nat): Conn {
    Conn(Receiver(Rx(0, EMPTY_WINDOW, aead, false, 0), 0, EMPTY_BUFFER, false, false, maxMessageLen), [], [])
  }

  lemma StartInvariant(aead: Aead, maxMessageLen: nat, msgs: seq<Message>)
    requires Numbered(msgs)
    ensures Invariant(Start(aead, maxMessageLen), msgs)
  {
    var c := Start(aead, maxMessageLen);
    forall n | 0 <= n < MAX_HANDSHAKE_FLIGHT
      ensures c.r.Slot(n) == Expected(msgs, c.log, n)
    {
    }
  }

  lemma StepInvariant(c: Conn, e: Event, msgs: seq<Message>)
    requires Invariant(c, msgs) && Allowed(c, e) && HonestEvent(c, e, msgs)
    ensures Invariant(Do(c, e), msgs)
  {
    hide Explained, OpenHandshake, OpenRecord, AppliedBy, HonestInput;
    ExplainedRing(c.r, msgs, c.log);
    match e
    case Arrive(input) =>
      ArrivalExplained(c.r, msgs, c.log, input);
      OpenKeepsValid(c.r, input);
    case AwaitCcs(input) =>
      ArrivalExplained(c.r, msgs, c.log, input);
      OpenKeepsValid(c.r, input);
      var base := if c.r.hasCcs then c.r else OpenHandshake(c.r, input).r;
      ExplainedSame(base, OpenChangeCipherSpec(c.r, input).r, msgs, Do(c, e).log);
    case Get =>
      ExplainedSame(c.r, GetMessage(c.r).0, msgs, c.log);
    case Next =>
      GetIsNextMessage(c.r, msgs, c.log);
      NextExplained(c.r, msgs, c.log);
    case Rekey(aead) =>
      ExplainedSame(c.r, SetReadState(c.r, aead).0, msgs, c.log);
  }

  lemma {:induction false} RunInvariant(c: Conn, events: seq<Event>, msgs: seq<Message>)
    requires Invariant(c, msgs) && HonestRun(c, events, msgs)
    ensures Invariant(Run(c, events, msgs), msgs)
    decreases |events|
  {
    hide Invariant, Do, Allowed, HonestEvent;
    if events != [] {
      StepInvariant(c, events[0], msgs);
      RunInvariant(Do(c, events[0]), events[1..], msgs);
    }
  }

  /**
   Safety, end to end: in any run over any channel, the messages the handshake has worked through are the
   first ones of the sender's list, each once, in order and unaltered; and the one it would be given now is
   the next of that list, given exactly when every byte of it has arrived.
   */
  lemma {:induction false} HandsOutPrefix(aead: Aead, maxMessageLen: nat, events: seq<Event>, msgs: seq<Message>)
    requires Numbered(msgs) && HonestRun(Start(aead, maxMessageLen), events, msgs)
    ensures var c := Run(Start(aead, maxMessageLen), events, msgs);
      && |c.out| <= |msgs| && c.out == msgs[..|c.out|]
      && c.r.Ring()
      && GetMessage(c.r).1 == (if Arrived(msgs, c.log, |c.out|) then Some(msgs[|c.out|]) else None)
  {
    hide Explained, HonestRun, Run;
    StartInvariant(aead, maxMessageLen, msgs);
    RunInvariant(Start(aead, maxMessageLen), events, msgs);
    var c := Run(Start(aead, maxMessageLen), events, msgs);
    ExplainedRing(c.r, msgs, c.log);
    GetIsNextMessage(c.r, msgs, c.log);
  }

  // ----- Liveness -----

  /** The handshake works through `k` messages. */
  function Drain(k: nat): seq<Event> {
    if k == 0 then [] else [Get, Next] + Drain(k - 1)
  }

  /** `t` is `c` once `k` more messages have been read. */
  ghost predicate Drained(c: Conn, t: Conn, k: nat) {
    && t.log == c.log && t.r.rx == c.r.rx && t.r.readSeq == c.r.readSeq + k
    && !t.r.hasMessage && t.r.hasCcs == c.r.hasCcs && t.r.maxMessageLen == c.r.maxMessageLen
  }

  /** Once the next `k` messages have arrived in full, all of them are handed out, and nothing else changes. */
  lemma {:induction false} ArrivedMessagesAreDelivered(c: Conn, k: nat, msgs: seq<Message>)
    requires Invariant(c, msgs) && !c.r.hasMessage
    requires forall n | c.r.readSeq <= n < c.r.readSeq + k :: Arrived(msgs, c.log, n)
    ensures HonestRun(c, Drain(k), msgs)
    ensures c.r.readSeq + k <= |msgs| && Run(c, Drain(k), msgs).out == msgs[..c.r.readSeq + k]
    ensures Drained(c, Run(c, Drain(k), msgs), k)
    decreases k
  {
    hide Explained, Arrived;
    ExplainedRing(c.r, msgs, c.log);
    if k > 0 {
      GetIsNextMessage(c.r, msgs, c.log);
      assert Arrived(msgs, c.log, c.r.readSeq);
      StepInvariant(c, Get, msgs);
      var d := Do(c, Get);
      StepInvariant(d, Next, msgs);
      ArrivedMessagesAreDelivered(Do(d, Next), k - 1, msgs);
      assert Drain(k)[1..][1..] == Drain(k - 1);
      assert HonestRun(d, Drain(k)[1..], msgs);
    }
  }
}
