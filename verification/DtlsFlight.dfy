/**
 The object behind `DtlsSender`: the flight being sent, its cursor and the record writer, updated in place
 by the packing and sending loops.
 */
module DtlsFlight {
  import opened Wrappers
  import opened DtlsWire
  import opened DtlsRecord
  import opened DtlsWriter
  import Spec = DtlsSender
  import opened DtlsSender

  class FlightSender {
    const writer: RecordWriter
    var writeSeq: nat
    var msgs: seq<OutMsg>
    var written: nat
    var offset: nat
    var complete: bool

    ghost predicate Valid()
      reads this, writer, writer.sequence, writer.lastSequence
    {
      writer.Valid() && State().Valid()
    }

    ghost function State(): Sender
      requires writer.Valid()
      reads this, writer, writer.sequence, writer.lastSequence
    {
      Sender(writer.State(), writeSeq, msgs, written, offset, complete)
    }

    constructor (aead: Aead)
      requires aead.recordVersion < 0x1_0000
      ensures Valid() && State() == Sender(Tx(0, 0, aead, 0, aead), 0, [], 0, 0, false)
      ensures fresh(writer) && fresh(writer.sequence) && fresh(writer.lastSequence)
    {
      writer := new RecordWriter(aead);
      writeSeq, msgs, written, offset, complete := 0, [], 0, 0, false;
    }

    /** Drops the flight. */
    method ClearOutgoing()
      requires Valid()
      modifies `msgs, `written, `offset, `complete
      ensures Valid() && msgs == [] && written == 0 && offset == 0 && !complete
    {
      hide WholeMessage, Cuttable, RecordWriter.State, RecordWriter.Valid, Tx.Fits;
      msgs, written, offset, complete := [], 0, 0, false;
    }

    /**
     Adds a message or a ChangeCipherSpec to the flight; a flight already sent is dropped first, for its reply has
     arrived. A message that carries the next number, as a message that has been started does, keeps the numbers of
     the flight consecutive.
     */
    method AddOutgoing(isCcs: bool, data: Bytes) returns (ok: bool)
      requires Valid()
      modifies `msgs, `written, `offset, `complete, `writeSeq
      ensures Valid() && !complete
      ensures ok <==> (old(complete) || |old(msgs)| < MAX_HANDSHAKE_FLIGHT) && |data| <= 0xffff_ffff
      ensures old(complete) ==> written == 0 && offset == 0 && |msgs| == if ok then 1 else 0
      ensures !old(complete) ==> written == old(written) && offset == old(offset) && old(msgs) <= msgs
      ensures ok ==> msgs != [] && msgs[|msgs| - 1] == OutMsg(data, writer.epoch, isCcs)
      ensures ok && !old(complete) ==> msgs[..|msgs| - 1] == old(msgs)
      ensures writeSeq == old(writeSeq) + if ok && !isCcs then 1 else 0
      ensures old(Consecutive(msgs, writeSeq)) && (ok && !isCcs ==> IsNumbered(data, old(writeSeq))) ==>
        Consecutive(msgs, writeSeq)
    {
      hide WholeMessage, Consecutive, IsNumbered, Cuttable, RecordWriter.State, RecordWriter.Valid, Tx.Fits;
      NothingIsConsecutive(writeSeq);
      if complete {
        ClearOutgoing();
      }
      if |msgs| >= MAX_HANDSHAKE_FLIGHT || |data| > 0xffff_ffff {
        return false;
      }
      Push(OutMsg(data, writer.epoch, isCcs));
      return true;
    }

    /** Puts a message behind those of the flight. */
    method Push(m: OutMsg)
      requires Valid() && |msgs| < MAX_HANDSHAKE_FLIGHT
      modifies `msgs, `writeSeq
      ensures Valid() && msgs == old(msgs) + [m] && writeSeq == old(writeSeq) + if m.isCcs then 0 else 1
      ensures old(Consecutive(msgs, writeSeq)) && (m.isCcs || IsNumbered(m.data, old(writeSeq))) ==>
        Consecutive(msgs, writeSeq)
    {
      hide WholeMessage, Consecutive, IsNumbered, Cuttable, RecordWriter.State, RecordWriter.Valid, Tx.Fits;
      if Consecutive(msgs, writeSeq) && (m.isCcs || IsNumbered(m.data, writeSeq)) {
        ConsecutiveSnoc(msgs, writeSeq, m);
      }
      if !m.isCcs {
        writeSeq := writeSeq + 1;
      }
      msgs := msgs + [m];
    }

    /** Seals the message at the cursor, or as much of it as fits. */
    method SealNextMessage(maxOut: nat) returns (result: SealResult)
      requires writer.Valid() && State().tx.Fits() && written < |msgs|
      modifies this`offset, writer.sequence, writer.lastSequence
      ensures writer.Valid() && SealNext(old(State()), maxOut) == (State(), result)
    {
      hide WholeMessage, FragmentText, Seal, Tx.Fits, Rec.Fits, Rec.Wire, SealedUnder, RecordWriter.State,
        RecordWriter.Valid;
      var m := msgs[written];
      var previous := writer.epoch >= 1 && m.epoch == writer.epoch - 1;
      if !previous && m.epoch != writer.epoch {
        return SealError;
      }
      var aead := if previous then writer.lastAead else writer.aead;
      var overhead := RT_HEADER_LENGTH + aead.MaxOverhead();
      if m.isCcs {
        if maxOut < 1 + overhead {
          return NoProgress;
        }
        var rec := writer.Seal(previous, RT_CHANGE_CIPHER_SPEC, [MT_CCS], maxOut);
        return if rec.Some? then SealSuccess(rec.value) else SealError;
      }
      var whole := WholeMessage(m.data);
      if whole.None? || offset > |whole.value.body| {
        return SealError;
      }
      if maxOut < HM_HEADER_LENGTH + 1 + overhead || maxOut < RT_HEADER_LENGTH + aead.explicitNonceLen {
        return NoProgress;
      }
      var left := |whole.value.body| - offset;
      var todo := left;
      if todo > maxOut - HM_HEADER_LENGTH - overhead {
        todo := maxOut - HM_HEADER_LENGTH - overhead;
      }
      var rec := writer.Seal(previous, RT_HANDSHAKE, FragmentText(whole.value, offset, todo), maxOut);
      if rec.None? {
        return SealError;
      }
      if todo == left {
        offset := 0;
        return SealSuccess(rec.value);
      }
      offset := offset + todo;
      return SealPartial(rec.value);
    }

    /** Fills one packet with the next records of the flight. */
    method SealNextPacket(maxOut: nat) returns (ok: bool, recs: seq<Rec>)
      requires Valid() && written < |msgs|
      modifies this`written, this`offset, writer.sequence, writer.lastSequence
      ensures Valid() && SealPacket(old(State()), maxOut) == PacketOutcome(State(), ok, recs)
    {
      hide Pack, Packing, SealNext, WholeMessage, Cuttable, Tx.Fits, Rec.Fits, Rec.Wire, SealedFor, Steps, Size,
        RecordWriter.State, RecordWriter.Valid;
      PackSteps(State(), maxOut);
      PackingBegins(State(), maxOut);
      ghost var o := Pack(State(), maxOut);
      var left: nat := maxOut;
      recs := [];
      while written < |msgs|
        invariant writer.Valid() && State().tx.Fits() && written <= |msgs| && msgs == old(msgs)
        invariant Packing(o, State(), left, recs)
        decreases |msgs| - written
      {
        PackingStep(o, State(), left, recs);
        var result := SealNextMessage(left);
        match result
        case SealError => return false, recs;
        case NoProgress => return recs != [], recs;
        case SealPartial(rec) =>
          recs := recs + [rec];
          return true, recs;
        case SealSuccess(rec) =>
          written := written + 1;
          left := left - |rec.Wire()|;
          recs := recs + [rec];
      }
      PackingEnds(o, State(), left, recs);
      return recs != [], recs;
    }

    /** Sends the rest of the flight; a packet the transport refuses is retried from the same cursor. */
    method SendFlight(shutdown: bool, mtu: nat, write: nat -> int, flush: int)
      returns (ret: int, packets: seq<seq<Rec>>)
      requires Valid()
      modifies this`written, this`offset, writer.sequence, writer.lastSequence
      ensures Valid()
      ensures var o := Spec.SendFlight(old(State()), shutdown, mtu, write, flush);
        o.s == State() && o.result.Ret() == ret && o.packets == packets
    {
      hide Pack, SealPacket, SendPackets, WholeMessage, Cuttable, Tx.Fits, Rec.Fits, SealedFor, Steps, Size,
        RecordWriter.State, RecordWriter.Valid, BodyLeft;
      packets := [];
      if shutdown {
        return -1, packets;
      }
      ghost var was := State();
      var k: nat := 0;
      while written < |msgs|
        invariant Valid() && msgs == old(msgs) && k == |packets|
        invariant var o := SendPackets(State(), mtu, write, k, flush);
          SendPackets(was, mtu, write, 0, flush) == o.(packets := packets + o.packets)
        decreases |msgs| - written, BodyLeft(State())
      {
        var oldWritten, oldOffset := written, offset;
        SendStep(State(), mtu, write, k, flush);
        var ok, recs := SealNextPacket(mtu);
        if !ok {
          return -1, packets;
        }
        if write(k) <= 0 {
          written, offset := oldWritten, oldOffset;
          return write(k), packets;
        }
        k := k + 1;
        ghost var front, rest := packets, SendPackets(State(), mtu, write, k, flush).packets;
        packets := packets + [recs];
        assert front + ([recs] + rest) == packets + rest;
      }
      SendNothing(State(), mtu, write, k, flush);
      return if flush <= 0 then -1 else 1, packets;
    }

    /**
     Finishes the flight and sends what is left of it: the packets are at most as long as the MTU and their records
     tile the flight from the cursor on, to its end if the call succeeds. The cursor is then behind them, and behind the
     records of a packet in which a seal failed.
     */
    method FlushFlight(shutdown: bool, mtu: nat, write: nat -> int, flush: int)
      returns (ret: int, packets: seq<seq<Rec>>)
      requires Valid()
      modifies this, writer.sequence, writer.lastSequence
      ensures Valid() && complete && msgs == old(msgs) && writeSeq == old(writeSeq)
      ensures Tiled(old(msgs), old(Cursor(written, offset)), mtu, write, ret, packets)
      ensures (shutdown ==> packets == []) && (ret > 0 ==> !shutdown && flush > 0)
      ensures !shutdown && Works(write, flush) && Ready(old(State()).(complete := true), mtu) ==> ret == 1
      ensures var lost := if shutdown then [] else Lost(old(State()).(complete := true), mtu, write, 0);
        && (lost != [] ==> ret == -1)
        && Steps(msgs, old(Cursor(written, offset)), Flatten(packets) + lost) == Some(Cursor(written, offset))
    {
      hide Pack, SealPacket, Steps, Size, WholeMessage, Cuttable, SealedUnder, RecordWriter.State, RecordWriter.Valid,
        Ready, Works, Lost, SendPackets;
      complete := true;
      SendPacketsTile(State(), mtu, write, 0, flush);
      PacketsWereTaken(State(), mtu, write, 0, flush);
      SealFailureSkips(State(), mtu, write, 0, flush);
      if Ready(State(), mtu) && Works(write, flush) {
        FlightGoesOut(State(), mtu, write, 0, flush);
      }
      NoSteps(msgs, At(State()));
      ret, packets := SendFlight(shutdown, mtu, write, flush);
      assert Flatten(packets) + [] == Flatten(packets);
    }

    /** Sends the whole flight again, whatever of it was sent before and however it was cut. */
    method Retransmit(shutdown: bool, mtu: nat, write: nat -> int, flush: int)
      returns (ret: int, packets: seq<seq<Rec>>)
      requires Valid()
      modifies this, writer.sequence, writer.lastSequence
      ensures Valid() && complete == old(complete) && msgs == old(msgs) && writeSeq == old(writeSeq)
      ensures Tiled(old(msgs), Cursor(0, 0), mtu, write, ret, packets)
      ensures (shutdown ==> packets == []) && (ret > 0 ==> !shutdown && flush > 0)
      ensures !shutdown && Works(write, flush) && Ready(old(State()).(written := 0, offset := 0), mtu) ==> ret == 1
      ensures var lost := if shutdown then [] else Lost(old(State()).(written := 0, offset := 0), mtu, write, 0);
        && (lost != [] ==> ret == -1)
        && Steps(msgs, Cursor(0, 0), Flatten(packets) + lost) == Some(Cursor(written, offset))
    {
      hide Pack, SealPacket, Steps, Size, WholeMessage, Cuttable, SealedUnder, RecordWriter.State, RecordWriter.Valid,
        Ready, Works, Lost, SendPackets;
      written, offset := 0, 0;
      SendPacketsTile(State(), mtu, write, 0, flush);
      PacketsWereTaken(State(), mtu, write, 0, flush);
      SealFailureSkips(State(), mtu, write, 0, flush);
      if Ready(State(), mtu) && Works(write, flush) {
        FlightGoesOut(State(), mtu, write, 0, flush);
      }
      NoSteps(msgs, At(State()));
      ret, packets := SendFlight(shutdown, mtu, write, flush);
      assert Flatten(packets) + [] == Flatten(packets);
    }
  }

  /**
   The packets are within the MTU and were taken by the transport, and their records follow one another in the flight,
   to its end on success.
   */
  predicate Tiled(msgs: seq<OutMsg>, from: Cursor, mtu: nat, write: nat -> int, ret: int, packets: seq<seq<Rec>>) {
    && (forall i | 0 <= i < |packets| :: packets[i] != [] && Size(packets[i]) <= mtu && write(i) > 0)
    && Steps(msgs, from, Flatten(packets)).Some?
    && (ret > 0 ==> Steps(msgs, from, Flatten(packets)) == Some(Cursor(|msgs|, 0)))
    && (ret <= 0 && ret != -1 ==> ret == write(|packets|))
  }
}
