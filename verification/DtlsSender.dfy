/**
 The sending side of the DTLS handshake (section 4.2.4 of RFC 6347): a flight of at most seven messages
 is cut into fragments and packed into packets no larger than the MTU, behind a cursor of message index
 and byte offset. This module is the specification; `DtlsFlight` holds the object that implements it.
 */
module DtlsSender {
  import opened Wrappers
  import opened DtlsWire
  import opened DtlsRecord

  /** One message of a flight, serialized as a single fragment, or a ChangeCipherSpec. */
  datatype OutMsg = OutMsg(data: Bytes, epoch: nat, isCcs: bool)

  datatype Sender = Sender(
    tx: Tx,
    writeSeq: nat,
    msgs: seq<OutMsg>,
    written: nat,
    offset: nat,
    complete: bool)
  {
    /** The cursor is inside the flight; it is inside a message only if that message can be cut. */
    predicate Valid() {
      && tx.Fits() && |msgs| <= MAX_HANDSHAKE_FLIGHT && written <= |msgs|
      && (offset > 0 ==> written < |msgs| && Cuttable(msgs[written], offset))
    }
  }

  predicate Cuttable(m: OutMsg, offset: nat) {
    !m.isCcs && WholeMessage(m.data).Some? && offset < |WholeMessage(m.data).value.body|
  }

  // ----- Building a flight -----

  /** The handshake messages of the flight have consecutive numbers, up to but not including `next`. */
  predicate Consecutive(msgs: seq<OutMsg>, next: nat) {
    if msgs == [] then true
    else
      var m, front := msgs[|msgs| - 1], msgs[..|msgs| - 1];
      if m.isCcs then Consecutive(front, next)
      else next > 0 && IsNumbered(m.data, next - 1) && Consecutive(front, next - 1)
  }

  predicate IsNumbered(data: Bytes, n: nat) {
    WholeMessage(data).Some? && WholeMessage(data).value.seqNum == n
  }

  lemma NothingIsConsecutive(next: nat)
    ensures Consecutive([], next)
  {
  }

  lemma ConsecutiveSnoc(msgs: seq<OutMsg>, next: nat, m: OutMsg)
    requires Consecutive(msgs, next) && (m.isCcs || IsNumbered(m.data, next))
    ensures Consecutive(msgs + [m], if m.isCcs then next else next + 1)
  {
    assert (msgs + [m])[..|msgs|] == msgs;
  }

  // ----- One record -----

  datatype SealResult = SealError | NoProgress | SealPartial(rec: Rec) | SealSuccess(rec: Rec)

  function Min(a: nat, b: nat): nat { if a <= b then a else b }

  /** The plaintext of the next fragment of `m`. */
  function FragmentText(m: Message, offset: nat, todo: nat): Bytes
    requires m.Fits() && offset + todo <= |m.body|
  {
    SerializeFragment(HmHeader(m.typ, |m.body|, m.seqNum, offset, todo), m.body[offset..offset + todo])
  }

  predicate UsesPrevious(s: Sender, m: OutMsg) {
    s.tx.epoch >= 1 && m.epoch == s.tx.epoch - 1
  }

  /** Seals as much of the message at the cursor as fits into `maxOut` bytes, as one record. */
  function SealNext(s: Sender, maxOut: nat): (o: (Sender, SealResult))
    requires s.tx.Fits() && s.written < |s.msgs|
  {
    var m := s.msgs[s.written];
    var previous := UsesPrevious(s, m);
    if !previous && m.epoch != s.tx.epoch then (s, SealError)
    else
      var overhead := MaxSealOverhead(s.tx, previous);
      if m.isCcs then
        if maxOut < 1 + overhead then (s, NoProgress)
        else
          var o := Seal(s.tx, previous, RT_CHANGE_CIPHER_SPEC, [MT_CCS], maxOut);
          (s.(tx := o.tx), if o.rec.Some? then SealSuccess(o.rec.value) else SealError)
      else match WholeMessage(m.data)
        case None => (s, SealError)
        case Some(whole) =>
          if s.offset > |whole.body| then (s, SealError)
          else if maxOut < HM_HEADER_LENGTH + 1 + overhead || maxOut < SealPrefixLen(s.tx, previous) then
            (s, NoProgress)
          else
            var todo := Min(|whole.body| - s.offset, maxOut - HM_HEADER_LENGTH - overhead);
            var o := Seal(s.tx, previous, RT_HANDSHAKE, FragmentText(whole, s.offset, todo), maxOut);
            if o.rec.None? then (s.(tx := o.tx), SealError)
            else if todo == |whole.body| - s.offset then (s.(tx := o.tx, offset := 0), SealSuccess(o.rec.value))
            else (s.(tx := o.tx, offset := s.offset + todo), SealPartial(o.rec.value))
  }

  // ----- One packet -----

  function Packet(recs: seq<Rec>): Bytes
    requires forall r | r in recs :: r.Fits()
  {
    if recs == [] then [] else recs[0].Wire() + Packet(recs[1..])
  }

  /** What packing leaves: the records of the packet, or a failure that may leave the cursor advanced. */
  datatype PacketOutcome = PacketOutcome(s: Sender, ok: bool, recs: seq<Rec>)

  /** Packs records into the `maxOut` bytes that are left of the packet. */
  function Pack(s: Sender, maxOut: nat): (o: PacketOutcome)
    requires s.tx.Fits() && s.written <= |s.msgs|
    decreases |s.msgs| - s.written
  {
    if s.written == |s.msgs| then PacketOutcome(s, true, [])
    else
      SealNextKeeps(s, maxOut);
      var (t, result) := SealNext(s, maxOut);
      match result
      case SealError => PacketOutcome(t, false, [])
      case NoProgress => PacketOutcome(t, true, [])
      case SealPartial(rec) => PacketOutcome(t, true, [rec])
      case SealSuccess(rec) =>
        var rest := Pack(t.(written := t.written + 1), maxOut - |rec.Wire()|);
        rest.(recs := [rec] + rest.recs)
  }

  /** A packet without a single record means the MTU is too small. */
  function SealPacket(s: Sender, maxOut: nat): PacketOutcome
    requires s.tx.Fits() && s.written <= |s.msgs|
  {
    var o := Pack(s, maxOut);
    o.(ok := o.ok && o.recs != [])
  }

  /** Sealing changes the counters and the offset, and no record exceeds the room it was given. */
  lemma SealNextKeeps(s: Sender, maxOut: nat)
    requires s.tx.Fits() && s.written < |s.msgs|
    ensures var o := SealNext(s, maxOut);
      && o.0 == s.(tx := o.0.tx, offset := o.0.offset) && SameKeys(s.tx, o.0.tx)
      && (o.1.SealPartial? || o.1.SealSuccess? ==>
        o.1.rec.Fits() && |o.1.rec.Wire()| <= maxOut && SealedFor(s.tx, o.1.rec))
  {
    hide Seal, WholeMessage, FragmentText, SealPrefixLen, SealedUnder;
  }

  ghost predicate SameKeys(a: Tx, b: Tx) {
    b.Fits() && b == a.(seqNum := b.seqNum, lastSeqNum := b.lastSeqNum)
  }

  /** A record sealed under the current or the previous key, for that key's epoch. */
  predicate SealedFor(tx: Tx, rec: Rec) {
    && rec.Fits()
    && (SealedUnder(rec, tx, false) || (tx.epoch >= 1 && SealedUnder(rec, tx, true)))
  }

  // ----- Cursors -----

  datatype Cursor = Cursor(written: nat, offset: nat)

  function At(s: Sender): Cursor { Cursor(s.written, s.offset) }

  predicate Before(c: Cursor, d: Cursor) {
    c.written < d.written || (c.written == d.written && c.offset < d.offset)
  }

  /**
   The cursor behind `rec`, if `rec` is the next record of the flight at `c`: the whole ChangeCipherSpec, or
   the fragment that starts exactly at the offset and brings the message forward.
   */
  function Step(msgs: seq<OutMsg>, c: Cursor, rec: Rec): Option<Cursor> {
    if c.written >= |msgs| || rec.epoch != msgs[c.written].epoch then None
    else
      var m := msgs[c.written];
      if m.isCcs then
        if rec.typ == RT_CHANGE_CIPHER_SPEC && rec.plaintext == [MT_CCS] then Some(Cursor(c.written + 1, 0)) else None
      else match WholeMessage(m.data)
        case None => None
        case Some(whole) =>
          var todo := |rec.plaintext| - HM_HEADER_LENGTH;
          if rec.typ != RT_HANDSHAKE || todo < 0 || c.offset + todo > |whole.body| then None
          else if rec.plaintext != FragmentText(whole, c.offset, todo) then None
          else if c.offset + todo == |whole.body| then Some(Cursor(c.written + 1, 0))
          else if todo == 0 then None
          else Some(Cursor(c.written, c.offset + todo))
  }

  /** The cursor behind a run of records that follow each other in the flight without gap or overlap. */
  function Steps(msgs: seq<OutMsg>, c: Cursor, recs: seq<Rec>): Option<Cursor>
    decreases |recs|
  {
    if recs == [] then Some(c)
    else match Step(msgs, c, recs[0])
      case None => None
      case Some(d) => Steps(msgs, d, recs[1..])
  }

  lemma NoSteps(msgs: seq<OutMsg>, c: Cursor)
    ensures Steps(msgs, c, []) == Some(c)
  {
  }

  lemma StepAdvances(msgs: seq<OutMsg>, c: Cursor, rec: Rec)
    requires Step(msgs, c, rec).Some?
    ensures Before(c, Step(msgs, c, rec).value)
  {
    hide WholeMessage, FragmentText;
  }

  lemma {:induction false} StepsAdvance(msgs: seq<OutMsg>, c: Cursor, recs: seq<Rec>)
    requires Steps(msgs, c, recs).Some?
    ensures var d := Steps(msgs, c, recs).value; if recs == [] then d == c else Before(c, d)
    decreases |recs|
  {
    hide Step;
    if recs != [] {
      StepAdvances(msgs, c, recs[0]);
      StepsAdvance(msgs, Step(msgs, c, recs[0]).value, recs[1..]);
    }
  }

  lemma {:induction false} StepsConcat(msgs: seq<OutMsg>, c: Cursor, a: seq<Rec>, b: seq<Rec>)
    requires Steps(msgs, c, a).Some?
    ensures Steps(msgs, c, a + b) == Steps(msgs, Steps(msgs, c, a).value, b)
    decreases |a|
  {
    hide Step;
    if a == [] {
      assert a + b == b;
    } else {
      assert (a + b)[1..] == a[1..] + b;
      StepsConcat(msgs, Step(msgs, c, a[0]).value, a[1..], b);
    }
  }

  /** A run of records past the start of message `w` splits there: no record holds parts of two messages. */
  lemma {:induction false} StepsSplit(msgs: seq<OutMsg>, c: Cursor, recs: seq<Rec>, w: nat) returns (k: nat)
    requires Steps(msgs, c, recs).Some? && c.written < w <= Steps(msgs, c, recs).value.written
    ensures k <= |recs| && Steps(msgs, c, recs[..k]) == Some(Cursor(w, 0))
    ensures Steps(msgs, Cursor(w, 0), recs[k..]) == Steps(msgs, c, recs)
    decreases |recs|
  {
    hide Step;
    var d := Step(msgs, c, recs[0]).value;
    StepShape(msgs, c, recs[0]);
    if d == Cursor(w, 0) {
      k := 1;
      assert recs[..1][1..] == [];
    } else {
      k := StepsSplit(msgs, d, recs[1..], w);
      k := k + 1;
      assert recs[..k][1..] == recs[1..][..k - 1];
      assert recs[k..] == recs[1..][k - 1..];
    }
  }

  // ----- Progress of one record and one packet -----

  lemma FragmentTextLength(m: Message, offset: nat, todo: nat)
    requires m.Fits() && offset + todo <= |m.body|
    ensures |FragmentText(m, offset, todo)| == HM_HEADER_LENGTH + todo
  {
  }

  /** A sealed record is the next one of the flight, and the cursor moves right behind it. */
  lemma SealNextSteps(s: Sender, maxOut: nat)
    requires s.Valid() && s.written < |s.msgs|
    ensures var (t, result) := SealNext(s, maxOut);
      match result
      case SealError => t.Valid() && At(t) == At(s)
      case NoProgress => t == s
      case SealPartial(rec) => t.Valid() && Step(s.msgs, At(s), rec) == Some(At(t))
      case SealSuccess(rec) => t.offset == 0 && Step(s.msgs, At(s), rec) == Some(Cursor(s.written + 1, 0))
  {
    hide Seal, WholeMessage, FragmentText, SealPrefixLen, MaxSealOverhead, Rec.Wire, Rec.Fits, SealedFor;
    SealNextKeeps(s, maxOut);
    var m := s.msgs[s.written];
    if !m.isCcs && WholeMessage(m.data).Some? {
      var whole := WholeMessage(m.data).value;
      var room := maxOut - HM_HEADER_LENGTH - MaxSealOverhead(s.tx, UsesPrevious(s, m));
      if s.offset <= |whole.body| && room >= 1 {
        FragmentTextLength(whole, s.offset, Min(|whole.body| - s.offset, room));
      }
    }
  }

  predicate AllSealedFor(tx: Tx, recs: seq<Rec>) {
    forall i | 0 <= i < |recs| :: SealedFor(tx, recs[i])
  }

  lemma SealedForSame(a: Tx, b: Tx, recs: seq<Rec>)
    requires SameKeys(a, b) && AllSealedFor(b, recs)
    ensures AllSealedFor(a, recs)
  {
    forall i | 0 <= i < |recs|
      ensures SealedFor(a, recs[i])
    {
      assert SealedFor(b, recs[i]);
    }
  }

  function Size(recs: seq<Rec>): nat {
    if recs == [] then 0 else RT_HEADER_LENGTH + |recs[0].ciphertext| + Size(recs[1..])
  }

  /**
   Packing a packet, whether it succeeds or not, seals the next records of the flight in order, leaves the
   cursor right behind them, and stays within the room given.
   */
  lemma {:induction false} PackSteps(s: Sender, maxOut: nat)
    requires s.Valid()
    ensures var o := Pack(s, maxOut);
      && o.s == s.(tx := o.s.tx, written := o.s.written, offset := o.s.offset)
      && o.s.Valid() && SameKeys(s.tx, o.s.tx)
      && Steps(s.msgs, At(s), o.recs) == Some(At(o.s))
      && AllSealedFor(s.tx, o.recs)
      && Size(o.recs) <= maxOut
    decreases |s.msgs| - s.written
  {
    hide SealNext, Step, SealedFor, Rec.Wire, Rec.Fits, Cuttable, Tx.Fits;
    if s.written < |s.msgs| {
      SealNextKeeps(s, maxOut);
      SealNextSteps(s, maxOut);
      var (t, result) := SealNext(s, maxOut);
      if result.SealSuccess? {
        var next, left := t.(written := t.written + 1), maxOut - |result.rec.Wire()|;
        PackSteps(next, left);
        SealedForSame(s.tx, next.tx, Pack(next, left).recs);
        assert Pack(s, maxOut).recs[1..] == Pack(next, left).recs;
      }
    }
  }

  /** The packing loop, unrolled once. */
  lemma PackStep(s: Sender, maxOut: nat)
    requires s.tx.Fits() && s.written < |s.msgs|
    ensures var (t, result) := SealNext(s, maxOut);
      && t.tx.Fits() && t.written == s.written && t.msgs == s.msgs
      && (result.SealError? ==> Pack(s, maxOut) == PacketOutcome(t, false, []))
      && (result.NoProgress? ==> Pack(s, maxOut) == PacketOutcome(t, true, []))
      && (result.SealPartial? ==> Pack(s, maxOut) == PacketOutcome(t, true, [result.rec]))
      && (result.SealSuccess? ==>
        && result.rec.Fits() && |result.rec.Wire()| <= maxOut
        && var rest := Pack(t.(written := t.written + 1), maxOut - |result.rec.Wire()|);
           Pack(s, maxOut) == rest.(recs := [result.rec] + rest.recs))
  {
    hide SealNext, Rec.Wire, Rec.Fits, SealedFor;
    SealNextKeeps(s, maxOut);
  }

  /** With `recs` in the packet already, what is packed from `s` on makes the outcome `o`. */
  ghost predicate Packing(o: PacketOutcome, s: Sender, left: nat, recs: seq<Rec>)
    requires s.tx.Fits() && s.written <= |s.msgs|
  {
    var rest := Pack(s, left);
    o == rest.(recs := recs + rest.recs)
  }

  lemma PackingBegins(s: Sender, maxOut: nat)
    requires s.tx.Fits() && s.written <= |s.msgs|
    ensures Packing(Pack(s, maxOut), s, maxOut, [])
  {
    hide Pack;
    assert [] + Pack(s, maxOut).recs == Pack(s, maxOut).recs;
  }

  lemma PackingStep(o: PacketOutcome, s: Sender, left: nat, recs: seq<Rec>)
    requires s.tx.Fits() && s.written < |s.msgs| && Packing(o, s, left, recs)
    ensures var (t, result) := SealNext(s, left);
      && t.tx.Fits() && t.written == s.written && t.msgs == s.msgs
      && (result.SealError? ==> o == PacketOutcome(t, false, recs))
      && (result.NoProgress? ==> o == PacketOutcome(t, true, recs))
      && (result.SealPartial? ==> o == PacketOutcome(t, true, recs + [result.rec]))
      && (result.SealSuccess? ==>
        && result.rec.Fits() && |result.rec.Wire()| <= left
        && Packing(o, t.(written := t.written + 1), left - |result.rec.Wire()|, recs + [result.rec]))
  {
    hide Pack, SealNext, Rec.Wire, Rec.Fits;
    PackStep(s, left);
    var (t, result) := SealNext(s, left);
    assert recs + [] == recs;
    if result.SealSuccess? {
      var rest := Pack(t.(written := t.written + 1), left - |result.rec.Wire()|);
      assert recs + ([result.rec] + rest.recs) == (recs + [result.rec]) + rest.recs;
    }
  }

  lemma PackingEnds(o: PacketOutcome, s: Sender, left: nat, recs: seq<Rec>)
    requires s.tx.Fits() && s.written == |s.msgs| && Packing(o, s, left, recs)
    ensures o == PacketOutcome(s, true, recs)
  {
  }

  /** Each packet strictly advances the cursor. */
  lemma SealPacketAdvances(s: Sender, maxOut: nat)
    requires s.Valid() && s.written < |s.msgs| && SealPacket(s, maxOut).ok
    ensures Before(At(s), At(SealPacket(s, maxOut).s))
  {
    hide Pack;
    PackSteps(s, maxOut);
    StepsAdvance(s.msgs, At(s), Pack(s, maxOut).recs);
  }

  // ----- A whole flight -----

  datatype FlightResult = FlightSent | WriteFailed(ret: int) | FlushFailed | SealFailed | WriteShutdown {
    /** The value the caller sees. */
    function Ret(): int {
      match this
      case FlightSent => 1
      case WriteFailed(ret) => ret
      case _ => -1
    }
  }

  datatype FlightOutcome = FlightOutcome(s: Sender, result: FlightResult, packets: seq<seq<Rec>>)

  function BodyLeft(s: Sender): nat
    requires s.Valid()
  {
    if s.offset > 0 then |WholeMessage(s.msgs[s.written].data).value.body| - s.offset
    else if s.written < |s.msgs| && WholeMessage(s.msgs[s.written].data).Some? then
      |WholeMessage(s.msgs[s.written].data).value.body|
    else 0
  }

  /** So a sending loop makes progress: a message is done, or less of it is left. */
  lemma SealPacketLeavesLess(s: Sender, maxOut: nat)
    requires s.Valid() && s.written < |s.msgs| && SealPacket(s, maxOut).ok
    ensures var t := SealPacket(s, maxOut).s;
      && t.Valid() && t.msgs == s.msgs
      && (s.written < t.written || (s.written == t.written && BodyLeft(t) < BodyLeft(s)))
  {
    hide Pack, WholeMessage;
    PackSteps(s, maxOut);
    SealPacketAdvances(s, maxOut);
  }

  /**
   Sends the rest of the flight, packet by packet. `write(k)` is what the transport answers to the `k`-th
   packet; a packet it does not take is sealed afresh the next time, from the same cursor.
   */
  function SendPackets(s: Sender, mtu: nat, write: nat -> int, k: nat, flush: int): (o: FlightOutcome)
    requires s.Valid()
    decreases |s.msgs| - s.written, BodyLeft(s)
  {
    if s.written == |s.msgs| then FlightOutcome(s, if flush <= 0 then FlushFailed else FlightSent, [])
    else
      var p := SealPacket(s, mtu);
      if !p.ok then FlightOutcome(p.s, SealFailed, [])
      else if write(k) <= 0 then
        FlightOutcome(p.s.(written := s.written, offset := s.offset), WriteFailed(write(k)), [])
      else
        SealPacketLeavesLess(s, mtu);
        var rest := SendPackets(p.s, mtu, write, k + 1, flush);
        rest.(packets := [p.recs] + rest.packets)
  }

  /** The sending loop, unrolled once. */
  lemma SendStep(s: Sender, mtu: nat, write: nat -> int, k: nat, flush: int)
    requires s.Valid() && s.written < |s.msgs|
    ensures var p := SealPacket(s, mtu);
      && p.s.Valid() && p.s.msgs == s.msgs && p.s.writeSeq == s.writeSeq && p.s.complete == s.complete
      && (!p.ok ==> SendPackets(s, mtu, write, k, flush) == FlightOutcome(p.s, SealFailed, []))
      && (p.ok && write(k) <= 0 ==>
        && p.s.(written := s.written, offset := s.offset).Valid()
        && SendPackets(s, mtu, write, k, flush)
           == FlightOutcome(p.s.(written := s.written, offset := s.offset), WriteFailed(write(k)), []))
      && (p.ok && write(k) > 0 ==>
        && (s.written < p.s.written || (s.written == p.s.written && BodyLeft(p.s) < BodyLeft(s)))
        && var rest := SendPackets(p.s, mtu, write, k + 1, flush);
           SendPackets(s, mtu, write, k, flush) == rest.(packets := [p.recs] + rest.packets))
  {
    hide Pack, WholeMessage, BodyLeft;
    PackSteps(s, mtu);
    if SealPacket(s, mtu).ok {
      SealPacketLeavesLess(s, mtu);
    }
  }

  lemma SendNothing(s: Sender, mtu: nat, write: nat -> int, k: nat, flush: int)
    requires s.Valid() && s.written == |s.msgs|
    ensures SendPackets(s, mtu, write, k, flush) == FlightOutcome(s, if flush <= 0 then FlushFailed else FlightSent, [])
  {
  }

  function SendFlight(s: Sender, shutdown: bool, mtu: nat, write: nat -> int, flush: int): FlightOutcome
    requires s.Valid()
  {
    if shutdown then FlightOutcome(s, WriteShutdown, []) else SendPackets(s, mtu, write, 0, flush)
  }

  function Flatten(packets: seq<seq<Rec>>): seq<Rec> {
    if packets == [] then [] else packets[0] + Flatten(packets[1..])
  }

  /**
   The records the transport took tile the flight from the old cursor: up to its end on success, and exactly
   up to the new cursor when the transport stopped taking packets.
   */
  lemma {:induction false} SendPacketsTile(s: Sender, mtu: nat, write: nat -> int, k: nat, flush: int)
    requires s.Valid()
    ensures var o := SendPackets(s, mtu, write, k, flush);
      && o.s == s.(tx := o.s.tx, written := o.s.written, offset := o.s.offset)
      && o.s.Valid() && SameKeys(s.tx, o.s.tx)
      && AllSealedFor(s.tx, Flatten(o.packets))
      && (forall i | 0 <= i < |o.packets| :: o.packets[i] != [] && Size(o.packets[i]) <= mtu)
      && Steps(s.msgs, At(s), Flatten(o.packets)).Some?
      && (o.result != SealFailed ==> Steps(s.msgs, At(s), Flatten(o.packets)) == Some(At(o.s)))
      && (o.result == FlightSent ==> At(o.s) == Cursor(|s.msgs|, 0))
      && (o.result.WriteFailed? ==> o.result.ret <= 0)
    decreases |s.msgs| - s.written, BodyLeft(s)
  {
    hide Pack, Step, SealedUnder, Size, WholeMessage;
    if s.written < |s.msgs| {
      var p := SealPacket(s, mtu);
      PackSteps(s, mtu);
      if p.ok && write(k) > 0 {
        SealPacketLeavesLess(s, mtu);
        SendPacketsTile(p.s, mtu, write, k + 1, flush);
        StepsConcat(s.msgs, At(s), p.recs, Flatten(SendPackets(p.s, mtu, write, k + 1, flush).packets));
        SealedForSame(s.tx, p.s.tx, Flatten(SendPackets(p.s, mtu, write, k + 1, flush).packets));
      }
    }
  }

  /** The packets are those that the transport took, up to the first that it did not take. */
  lemma {:induction false} PacketsWereTaken(s: Sender, mtu: nat, write: nat -> int, k: nat, flush: int)
    requires s.Valid()
    ensures var o := SendPackets(s, mtu, write, k, flush);
      && (forall j | k <= j < k + |o.packets| :: write(j) > 0)
      && (o.result.WriteFailed? ==> o.result.ret == write(k + |o.packets|) <= 0)
      && (o.result.FlightSent? ==> flush > 0)
    decreases |s.msgs| - s.written, BodyLeft(s)
  {
    hide SealPacket, BodyLeft;
    if s.written < |s.msgs| {
      SendStep(s, mtu, write, k, flush);
      if SealPacket(s, mtu).ok && write(k) > 0 {
        PacketsWereTaken(SealPacket(s, mtu).s, mtu, write, k + 1, flush);
      }
    }
  }

  /** The records of the packet in which a seal failed: they are sealed, but never reach the transport. */
  function Lost(s: Sender, mtu: nat, write: nat -> int, k: nat): seq<Rec>
    requires s.Valid()
    decreases |s.msgs| - s.written, BodyLeft(s)
  {
    if s.written == |s.msgs| then []
    else
      var p := SealPacket(s, mtu);
      if !p.ok then p.recs
      else if write(k) <= 0 then []
      else
        SealPacketLeavesLess(s, mtu);
        Lost(p.s, mtu, write, k + 1)
  }

  lemma NoSize()
    ensures Size([]) == 0 && Flatten([]) == []
  {
  }

  /** What was lost comes behind what was sent, and then comes the cursor. */
  lemma {:induction false} LostFollows(s: Sender, mtu: nat, write: nat -> int, k: nat, flush: int)
    requires s.Valid()
    ensures var o, lost := SendPackets(s, mtu, write, k, flush), Lost(s, mtu, write, k);
      && Steps(s.msgs, At(s), Flatten(o.packets) + lost) == Some(At(o.s))
      && (lost != [] ==> o.result == SealFailed) && Size(lost) <= mtu
    decreases |s.msgs| - s.written, BodyLeft(s)
  {
    hide Pack, Steps, Size, BodyLeft, SealedFor;
    NoSteps(s.msgs, At(s));
    NoSize();
    var lost := Lost(s, mtu, write, k);
    assert [] + lost == lost;
    if s.written < |s.msgs| {
      var p := SealPacket(s, mtu);
      PackSteps(s, mtu);
      SendStep(s, mtu, write, k, flush);
      if p.ok && write(k) > 0 {
        LostFollows(p.s, mtu, write, k + 1, flush);
        var rest := Flatten(SendPackets(p.s, mtu, write, k + 1, flush).packets);
        LostBehind(s.msgs, At(s), p.recs, rest, lost);
        FlattenCons(p.recs, SendPackets(p.s, mtu, write, k + 1, flush).packets);
      }
    }
  }

  lemma FlattenCons(recs: seq<Rec>, packets: seq<seq<Rec>>)
    ensures Flatten([recs] + packets) == recs + Flatten(packets)
  {
    assert ([recs] + packets)[1..] == packets;
  }

  lemma LostBehind(msgs: seq<OutMsg>, c: Cursor, first: seq<Rec>, rest: seq<Rec>, lost: seq<Rec>)
    requires Steps(msgs, c, first).Some?
    ensures Steps(msgs, c, (first + rest) + lost) == Steps(msgs, Steps(msgs, c, first).value, rest + lost)
  {
    hide Steps;
    assert (first + rest) + lost == first + (rest + lost);
    StepsConcat(msgs, c, first, rest + lost);
  }

  /**
   Where the cursor is after a failed seal: behind the records of the packet that was being filled, although the
   transport has not seen them, and so not behind what the transport has seen, unless that packet was empty. After any
   other result nothing is lost.
   */
  lemma SealFailureSkips(s: Sender, mtu: nat, write: nat -> int, k: nat, flush: int)
    requires s.Valid()
    ensures var o, lost := SendPackets(s, mtu, write, k, flush), Lost(s, mtu, write, k);
      && Steps(s.msgs, At(s), Flatten(o.packets) + lost) == Some(At(o.s))
      && (Steps(s.msgs, At(s), Flatten(o.packets)) == Some(At(o.s)) <==> lost == [])
      && (lost != [] ==> o.result == SealFailed) && Size(lost) <= mtu
  {
    hide Steps, Size, SendPackets, Lost, BodyLeft, Flatten;
    SendPacketsTile(s, mtu, write, k, flush);
    LostFollows(s, mtu, write, k, flush);
    LostOnly(s.msgs, At(s), Flatten(SendPackets(s, mtu, write, k, flush).packets), Lost(s, mtu, write, k));
  }

  lemma LostOnly(msgs: seq<OutMsg>, c: Cursor, sent: seq<Rec>, lost: seq<Rec>)
    requires Steps(msgs, c, sent).Some? && Steps(msgs, c, sent + lost).Some?
    ensures Steps(msgs, c, sent) == Steps(msgs, c, sent + lost) <==> lost == []
  {
    hide Step;
    StepsConcat(msgs, c, sent, lost);
    StepsAdvance(msgs, Steps(msgs, c, sent).value, lost);
  }

  // ----- Tiling, byte by byte -----

  /** The bodies of the fragments of message `w`, joined in the order in which they were sent. */
  function Bodies(msgs: seq<OutMsg>, c: Cursor, recs: seq<Rec>, w: nat): Bytes
    requires Steps(msgs, c, recs).Some?
    decreases |recs|
  {
    if recs == [] then []
    else
      var rest := Bodies(msgs, Step(msgs, c, recs[0]).value, recs[1..], w);
      if c.written == w && |recs[0].plaintext| >= HM_HEADER_LENGTH then recs[0].plaintext[HM_HEADER_LENGTH..] + rest
      else rest
  }

  /** A fragment brings exactly the bytes between the old cursor and the new one. */
  lemma StepBody(msgs: seq<OutMsg>, c: Cursor, rec: Rec)
    requires Step(msgs, c, rec).Some? && !msgs[c.written].isCcs
    ensures |rec.plaintext| >= HM_HEADER_LENGTH && WholeMessage(msgs[c.written].data).Some?
    ensures var d, body := Step(msgs, c, rec).value, WholeMessage(msgs[c.written].data).value.body;
      var end := if d.written == c.written then d.offset else |body|;
      c.offset <= end <= |body| && rec.plaintext[HM_HEADER_LENGTH..] == body[c.offset..end]
  {
    hide WholeMessage;
  }

  lemma CutAt(body: Bytes, a: nat, b: nat)
    requires a <= b <= |body|
    ensures body[a..] == body[a..b] + body[b..]
    ensures b == |body| ==> body[a..b] + [] == body[a..]
  {
  }

  lemma BodiesStep(msgs: seq<OutMsg>, c: Cursor, recs: seq<Rec>, w: nat)
    requires recs != [] && Steps(msgs, c, recs).Some?
    ensures var rest := Bodies(msgs, Step(msgs, c, recs[0]).value, recs[1..], w);
      Bodies(msgs, c, recs, w) ==
        if c.written == w && |recs[0].plaintext| >= HM_HEADER_LENGTH then recs[0].plaintext[HM_HEADER_LENGTH..] + rest
        else rest
  {
    hide Step;
  }

  /**
   Fragments tile the body: a run that begins at the start of a message, or within it, and goes past it
   carries, joined in order, exactly the bytes from there to its end.
   */
  lemma {:induction false} FragmentsTileBody(msgs: seq<OutMsg>, c: Cursor, recs: seq<Rec>, w: nat)
    requires Steps(msgs, c, recs).Some? && c.written <= w < Steps(msgs, c, recs).value.written
    requires w < |msgs| && !msgs[w].isCcs
    ensures WholeMessage(msgs[w].data).Some?
    ensures var body := WholeMessage(msgs[w].data).value.body;
      var from := if c.written == w then c.offset else 0;
      from <= |body| && Bodies(msgs, c, recs, w) == body[from..]
    decreases |recs|
  {
    hide Step, WholeMessage, Bodies;
    var d := Step(msgs, c, recs[0]).value;
    StepAdvances(msgs, c, recs[0]);
    StepShape(msgs, c, recs[0]);
    BodiesStep(msgs, c, recs, w);
    if c.written == w {
      StepBody(msgs, c, recs[0]);
      var body := WholeMessage(msgs[w].data).value.body;
      if d.written == w {
        FragmentsTileBody(msgs, d, recs[1..], w);
        CutAt(body, c.offset, d.offset);
      } else {
        NothingBehind(msgs, d, recs[1..], w);
        CutAt(body, c.offset, |body|);
      }
    } else {
      FragmentsTileBody(msgs, d, recs[1..], w);
    }
  }

  lemma StepShape(msgs: seq<OutMsg>, c: Cursor, rec: Rec)
    requires Step(msgs, c, rec).Some?
    ensures var d := Step(msgs, c, rec).value;
      c.written < |msgs| && (d.written == c.written || d == Cursor(c.written + 1, 0))
  {
    hide WholeMessage, FragmentText;
  }

  lemma {:induction false} NothingBehind(msgs: seq<OutMsg>, c: Cursor, recs: seq<Rec>, w: nat)
    requires Steps(msgs, c, recs).Some? && w < c.written
    ensures Bodies(msgs, c, recs, w) == []
    decreases |recs|
  {
    hide Step;
    if recs != [] {
      StepAdvances(msgs, c, recs[0]);
      NothingBehind(msgs, Step(msgs, c, recs[0]).value, recs[1..], w);
    }
  }

  // ----- Interrupted flights -----

  /** One call to send the flight: the MTU at the time and the answers of the transport. */
  datatype Attempt = Attempt(mtu: nat, write: nat -> int, flush: int)

  /** Calls the sender again and again until the flight is out or a record cannot be sealed. */
  function SendAll(s: Sender, attempts: seq<Attempt>): (o: FlightOutcome)
    requires s.Valid()
    decreases |attempts|
  {
    if attempts == [] then FlightOutcome(s, WriteFailed(0), [])
    else
      var a := attempts[0];
      SendPacketsTile(s, a.mtu, a.write, 0, a.flush);
      var o := SendFlight(s, false, a.mtu, a.write, a.flush);
      if o.result == FlightSent || o.result == SealFailed then o
      else
        var rest := SendAll(o.s, attempts[1..]);
        rest.(packets := o.packets + rest.packets)
  }

  lemma {:induction false} FlattenConcat(a: seq<seq<Rec>>, b: seq<seq<Rec>>)
    ensures Flatten(a + b) == Flatten(a) + Flatten(b)
  {
    if a == [] {
      assert a + b == b;
    } else {
      assert (a + b)[1..] == a[1..] + b;
      FlattenConcat(a[1..], b);
    }
  }

  /**
   A flight interrupted any number of times by a transport that stops taking packets, each time resumed with
   whatever MTU is then current, is tiled as if it had gone out at once.
   */
  lemma {:induction false} InterruptedFlightTiles(s: Sender, attempts: seq<Attempt>)
    requires s.Valid()
    ensures var o := SendAll(s, attempts);
      && o.s.Valid()
      && Steps(s.msgs, At(s), Flatten(o.packets)).Some?
      && (o.result != SealFailed ==> Steps(s.msgs, At(s), Flatten(o.packets)) == Some(At(o.s)))
      && (o.result == FlightSent ==> At(o.s) == Cursor(|s.msgs|, 0))
    decreases |attempts|
  {
    hide Step, WholeMessage, AllSealedFor, Size, SendPackets;
    if attempts != [] {
      var a := attempts[0];
      SendPacketsTile(s, a.mtu, a.write, 0, a.flush);
      var o := SendFlight(s, false, a.mtu, a.write, a.flush);
      if o.result != FlightSent && o.result != SealFailed {
        InterruptedFlightTiles(o.s, attempts[1..]);
        var rest := SendAll(o.s, attempts[1..]).packets;
        FlattenConcat(o.packets, rest);
        StepsConcat(s.msgs, At(s), Flatten(o.packets), Flatten(rest));
      }
    }
  }

  // ----- When a flight goes out -----

  /** The longest plaintext into which packets of `mtu` bytes cut the message. */
  function LongestText(s: Sender, m: OutMsg, mtu: nat): int {
    if m.isCcs then 1
    else if WholeMessage(m.data).None? then 0
    else
      var whole := HM_HEADER_LENGTH + |WholeMessage(m.data).value.body|;
      var room := mtu - MaxSealOverhead(s.tx, UsesPrevious(s, m));
      if whole <= room then whole else room
  }

  /** The message is sealed under a key in use and can be cut, and the MTU leaves room for a byte of it. */
  predicate CanBeCut(s: Sender, m: OutMsg, mtu: nat) {
    && (UsesPrevious(s, m) || m.epoch == s.tx.epoch)
    && (m.isCcs || WholeMessage(m.data).Some?)
    && mtu >= HM_HEADER_LENGTH + 1 + MaxSealOverhead(s.tx, UsesPrevious(s, m))
  }

  /** And none of its records can need 2^16 bytes. */
  predicate CanGo(s: Sender, m: OutMsg, mtu: nat) {
    CanBeCut(s, m, mtu) && LongestText(s, m, mtu) + s.tx.AeadFor(UsesPrevious(s, m)).MaxOverhead() < 0x1_0000
  }

  predicate Sendable(s: Sender, mtu: nat) {
    forall i | 0 <= i < |s.msgs| :: CanGo(s, s.msgs[i], mtu)
  }

  /** A cipher that never fails and keeps to its overhead, for texts that fit a packet. */
  ghost predicate NeverFails(aead: Aead, mtu: nat) {
    forall typ: Byte, version: nat, number: Bytes, text: Bytes {:trigger aead.seal(typ, version, number, text)} ::
      |text| <= mtu ==>
        && aead.seal(typ, version, number, text).Some?
        && |aead.seal(typ, version, number, text).value| <= |text| + aead.MaxOverhead()
  }

  /** An upper bound on the records the flight can still take: one per message and one per byte. */
  function Units(msgs: seq<OutMsg>, c: Cursor): int
    decreases |msgs| - c.written
  {
    if c.written >= |msgs| then 0
    else 1 + |msgs[c.written].data| - c.offset + Units(msgs, Cursor(c.written + 1, 0))
  }

  lemma {:induction false} UnitsNonnegative(msgs: seq<OutMsg>, w: nat)
    ensures Units(msgs, Cursor(w, 0)) >= 0
    decreases |msgs| - w
  {
    if w < |msgs| {
      UnitsNonnegative(msgs, w + 1);
    }
  }

  /** Each record uses up at least one unit. */
  lemma StepUnits(msgs: seq<OutMsg>, c: Cursor, rec: Rec)
    requires Step(msgs, c, rec).Some? && (c.offset > 0 ==> Cuttable(msgs[c.written], c.offset))
    ensures Units(msgs, Step(msgs, c, rec).value) < Units(msgs, c)
  {
    hide WholeMessage, FragmentText;
    var d := Step(msgs, c, rec).value;
    if WholeMessage(msgs[c.written].data).Some? {
      WholeMessageIsRaw(msgs[c.written].data, WholeMessage(msgs[c.written].data).value);
    }
  }

  /** The counters can take so many more records without reaching their end. */
  predicate RoomToCount(tx: Tx, records: int) {
    tx.seqNum + records + 1 < Pow256(6) && tx.lastSeqNum + records + 1 < Pow256(6)
  }

  /** What a flight needs to go out through packets of `mtu` bytes. */
  ghost predicate Ready(s: Sender, mtu: nat) {
    && s.Valid() && Sendable(s, mtu)
    && NeverFails(s.tx.aead, mtu) && (s.tx.epoch >= 1 ==> NeverFails(s.tx.lastAead, mtu))
    && RoomToCount(s.tx, Units(s.msgs, At(s)))
  }

  lemma SealSucceeds(tx: Tx, previous: bool, typ: Byte, text: Bytes, maxOut: nat, mtu: nat)
    requires tx.Fits() && (previous ==> tx.epoch >= 1)
    requires NeverFails(tx.AeadFor(previous), mtu) && maxOut <= mtu
    requires |text| + tx.AeadFor(previous).MaxOverhead() < 0x1_0000
    requires |text| + MaxSealOverhead(tx, previous) <= maxOut && tx.SeqNumFor(previous) + 1 < Pow256(6)
    ensures var o := Seal(tx, previous, typ, text, maxOut);
      && o.rec.Some? && o.tx.seqNum <= tx.seqNum + 1 && o.tx.lastSeqNum <= tx.lastSeqNum + 1
  {
    hide Pow256, Sequence;
    SmallMod(tx.SeqNumFor(previous) + 1, Pow256(6));
  }

  /** Sealing a record of a ready sender works, if the packet has room for it. */
  lemma SealNextWorks(s: Sender, maxOut: nat, mtu: nat)
    requires Ready(s, mtu) && maxOut <= mtu && s.written < |s.msgs|
    ensures var (t, result) := SealNext(s, maxOut);
      && !result.SealError? && (result.NoProgress? ==> maxOut < mtu)
      && t.tx.seqNum <= s.tx.seqNum + 1 && t.tx.lastSeqNum <= s.tx.lastSeqNum + 1
  {
    hide Seal, WholeMessage, FragmentText, Pow256, NeverFails, Tx.Fits, Rec.Fits, Rec.Wire, SealedUnder, Units;
    NextUnits(s);
    var m := s.msgs[s.written];
    var previous := UsesPrevious(s, m);
    assert CanGo(s, m, mtu);
    var room := maxOut - HM_HEADER_LENGTH - MaxSealOverhead(s.tx, previous);
    if m.isCcs {
      if maxOut >= 1 + MaxSealOverhead(s.tx, previous) {
        SealSucceeds(s.tx, previous, RT_CHANGE_CIPHER_SPEC, [MT_CCS], maxOut, mtu);
      }
    } else if room >= 1 {
      var whole := WholeMessage(m.data).value;
      var todo := Min(|whole.body| - s.offset, room);
      FragmentTextLength(whole, s.offset, todo);
      SealSucceeds(s.tx, previous, RT_HANDSHAKE, FragmentText(whole, s.offset, todo), maxOut, mtu);
    }
  }

  /** A sender stays ready when a step uses up at least as many units as sequence numbers. */
  lemma StaysReady(s: Sender, t: Sender, mtu: nat)
    requires Ready(s, mtu) && t.Valid() && t.msgs == s.msgs && SameKeys(s.tx, t.tx)
    requires t.tx.seqNum <= s.tx.seqNum + 1 && t.tx.lastSeqNum <= s.tx.lastSeqNum + 1
    requires Units(t.msgs, At(t)) < Units(s.msgs, At(s))
    ensures Ready(t, mtu)
  {
    hide Units, Pow256, NeverFails, WholeMessage;
    forall i | 0 <= i < |t.msgs|
      ensures CanGo(t, t.msgs[i], mtu)
    {
      assert CanGo(s, s.msgs[i], mtu) && UsesPrevious(t, t.msgs[i]) == UsesPrevious(s, s.msgs[i]);
    }
  }

  /** A ready sender seals its next record unless the packet is too full for it. */
  lemma SealNextSucceeds(s: Sender, maxOut: nat, mtu: nat)
    requires Ready(s, mtu) && maxOut <= mtu && s.written < |s.msgs|
    ensures var (t, result) := SealNext(s, maxOut);
      && !result.SealError?
      && (result.NoProgress? ==> maxOut < mtu && t == s)
      && (result.SealPartial? ==> Ready(t, mtu))
      && (result.SealSuccess? ==> Ready(t.(written := t.written + 1), mtu))
  {
    hide SealNext, Sendable, Step, Units, NeverFails, RoomToCount, Tx.Fits, WholeMessage, Rec.Wire, Rec.Fits,
      SealedFor;
    SealNextWorks(s, maxOut, mtu);
    SealNextSteps(s, maxOut);
    SealNextKeeps(s, maxOut);
    var (t, result) := SealNext(s, maxOut);
    if result.SealPartial? {
      StepUnits(s.msgs, At(s), result.rec);
      StaysReady(s, t, mtu);
    } else if result.SealSuccess? {
      StepUnits(s.msgs, At(s), result.rec);
      StaysReady(s, t.(written := t.written + 1), mtu);
    }
  }

  lemma NextUnits(s: Sender)
    requires s.Valid() && s.written < |s.msgs|
    ensures Units(s.msgs, At(s)) >= 1
  {
    hide WholeMessage, Tx.Fits;
    UnitsNonnegative(s.msgs, s.written + 1);
    if s.offset > 0 {
      WholeMessageIsRaw(s.msgs[s.written].data, WholeMessage(s.msgs[s.written].data).value);
    }
  }

  /** A ready sender fills a packet with at least one record. */
  lemma {:induction false} PackSucceeds(s: Sender, maxOut: nat, mtu: nat)
    requires Ready(s, mtu) && maxOut <= mtu
    ensures Pack(s, maxOut).ok && Ready(Pack(s, maxOut).s, mtu)
    ensures maxOut == mtu && s.written < |s.msgs| ==> Pack(s, maxOut).recs != []
    decreases |s.msgs| - s.written
  {
    hide SealNext, Ready, WholeMessage, Rec.Wire, Rec.Fits, SealedFor, SameKeys;
    ReadyIsValid(s, mtu);
    if s.written < |s.msgs| {
      SealNextSucceeds(s, maxOut, mtu);
      SealNextKeeps(s, maxOut);
      var (t, result) := SealNext(s, maxOut);
      if result.SealSuccess? {
        PackSucceeds(t.(written := t.written + 1), maxOut - |result.rec.Wire()|, mtu);
      }
    }
  }

  lemma ReadyIsValid(s: Sender, mtu: nat)
    requires Ready(s, mtu)
    ensures s.Valid()
  {
  }

  /** A transport that takes every packet and flushes. */
  ghost predicate Works(write: nat -> int, flush: int) {
    flush > 0 && forall j: nat :: write(j) > 0
  }

  /** A ready sender on a transport that works sends its whole flight. */
  lemma {:induction false} FlightGoesOut(s: Sender, mtu: nat, write: nat -> int, k: nat, flush: int)
    requires Ready(s, mtu) && Works(write, flush)
    ensures SendPackets(s, mtu, write, k, flush).result == FlightSent
    decreases |s.msgs| - s.written, BodyLeft(s)
  {
    hide Pack, Ready, BodyLeft;
    ReadyIsValid(s, mtu);
    if s.written < |s.msgs| {
      PackSucceeds(s, mtu, mtu);
      SealPacketLeavesLess(s, mtu);
      FlightGoesOut(SealPacket(s, mtu).s, mtu, write, k + 1, flush);
    }
  }
}
