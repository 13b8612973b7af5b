/**
 The object behind `DtlsReceiver`: a ring buffer of pointers to messages under reassembly, updated in
 place. Every method is proved to take the object from a state to the one the specification gives.
 */
module DtlsReader {
  import opened Wrappers
  import opened DtlsWire
  import opened DtlsReassembly
  import opened DtlsReplay
  import opened DtlsRecord
  import Spec = DtlsReceiver
  import opened DtlsReceiver

  class HandshakeReader {
    const records: RecordReader
    const incoming: array<HmFragment?>
    const maxMessageLen: nat
    var readSeq: nat
    var hasMessage: bool
    var hasCcs: bool

    ghost var Repr: set<object>

    /** The objects are this reader's own, and no two slots share memory. */
    ghost predicate Owned()
      reads this, Repr
    {
      && this in Repr && records in Repr && records.bitmap in Repr && incoming in Repr
      && incoming.Length == MAX_HANDSHAKE_FLIGHT
      && (forall i | 0 <= i < MAX_HANDSHAKE_FLIGHT ::
        && (incoming[i] != null ==> incoming[i] in Repr)
        && MemoryOf(incoming[i]) <= Repr - {this, records, records.bitmap, incoming}
        && GoodSlot(incoming[i]))
      && forall i, j | 0 <= i < j < MAX_HANDSHAKE_FLIGHT :: MemoryOf(incoming[i]) !! MemoryOf(incoming[j])
    }

    ghost function State(): Receiver
      requires Owned()
      reads this, Repr
    {
      Receiver(records.State(), readSeq, Slots(), hasMessage, hasCcs, maxMessageLen)
    }

    ghost function Slots(): (s: seq<Option<Frag>>)
      requires Owned()
      reads this, Repr
      ensures |s| == MAX_HANDSHAKE_FLIGHT
      ensures forall i | 0 <= i < MAX_HANDSHAKE_FLIGHT :: s[i] == ValueOf(incoming[i])
    {
      seq(MAX_HANDSHAKE_FLIGHT, i requires 0 <= i < MAX_HANDSHAKE_FLIGHT && Owned() reads this, Repr =>
        ValueOf(incoming[i]))
    }

    ghost predicate Valid()
      reads this, Repr
    {
      Owned() && State().Valid()
    }

    constructor (aead: Aead, maxMessageLen: nat)
      ensures Valid() && fresh(Repr)
      ensures State() == Receiver(Rx(0, EMPTY_WINDOW, aead, false, 0), 0,
        seq(MAX_HANDSHAKE_FLIGHT, _ => None), false, false, maxMessageLen)
    {
      this.maxMessageLen, readSeq, hasMessage, hasCcs := maxMessageLen, 0, false, false;
      var reader := new RecordReader(aead);
      var slots := new HmFragment?[MAX_HANDSHAKE_FLIGHT](_ => null);
      records, incoming := reader, slots;
      new;
      Repr := {this, records, records.bitmap, incoming};
    }

    /** Puts a message of which nothing has arrived into its slot. */
    method NewIncoming(h: HmHeader) returns (frag: HmFragment)
      requires Owned() && h.Fits() && incoming[h.seqNum % MAX_HANDSHAKE_FLIGHT] == null
      modifies Repr
      ensures Owned() && fresh(Repr - old(Repr))
      ensures frag == incoming[h.seqNum % MAX_HANDSHAKE_FLIGHT] && frag.Valid() && frag.Value() == NewFrag(h)
      ensures State() == old(State()).(slots := old(Slots())[h.seqNum % MAX_HANDSHAKE_FLIGHT := Some(NewFrag(h))])
    {
      hide HmFragment.Valid, HmFragment.Value;
      frag := new HmFragment(h);
      incoming[h.seqNum % MAX_HANDSHAKE_FLIGHT] := frag;
      Repr := Repr + frag.Footprint();
      assert Slots() == old(Slots())[h.seqNum % MAX_HANDSHAKE_FLIGHT := Some(NewFrag(h))];
    }

    /** Looks up the message a fragment belongs to, creating it on its first fragment. */
    method GetIncoming(h: HmHeader) returns (frag: HmFragment?, alert: Alert)
      requires Owned() && State().Ring() && h.Fits()
      modifies Repr
      ensures Owned() && State().Ring() && fresh(Repr - old(Repr))
      ensures frag == null ==>
        && Spec.GetIncoming(old(State()), h) == None
        && State() == old(State()) && alert == GetIncomingAlert(old(State()), h)
      ensures frag != null ==>
        && frag == incoming[h.seqNum % MAX_HANDSHAKE_FLIGHT]
        && Spec.GetIncoming(old(State()), h) == Some(frag.Value())
        && State() == old(State()).WithSlot(h.seqNum, frag.Value())
    {
      hide HmFragment.Valid, HmFragment.Value;
      alert := NoAlert;
      if h.seqNum < readSeq || h.seqNum - readSeq >= MAX_HANDSHAKE_FLIGHT {
        return null, InternalError;
      }
      var idx := h.seqNum % MAX_HANDSHAKE_FLIGHT;
      frag := incoming[idx];
      if frag != null {
        if frag.typ != h.typ || frag.msgLen != h.msgLen {
          return null, IllegalParameter;
        }
        assert State().slots == old(State()).slots[idx := Some(frag.Value())];
        return;
      }
      frag := NewIncoming(h);
    }

    method ProcessFragment(h: HmHeader, body: Bytes) returns (ok: bool, alert: Alert)
      requires Owned() && State().Ring() && h.Fits() && |body| == h.fragLen
      modifies Repr
      ensures Owned() && fresh(Repr - old(Repr))
      ensures Spec.ProcessFragment(old(State()), h, body)
           == if ok then FragOk(State()) else FragError(State(), alert)
    {
      hide HmFragment.Valid, HmFragment.Value;
      if h.fragOff > h.msgLen || h.fragOff + h.fragLen > h.msgLen || h.msgLen > maxMessageLen {
        return false, IllegalParameter;
      }
      if records.epoch == 1 && h.seqNum != readSeq {
        return false, UnexpectedMessage;
      }
      if h.seqNum < readSeq || h.seqNum > readSeq + MAX_HANDSHAKE_FLIGHT {
        return true, NoAlert;
      }
      ghost var was := State();
      var frag, refused := GetIncoming(h);
      if frag == null {
        return false, refused;
      }
      frag.CompleteIffReleased();
      if frag.reassembly != null {
        Fill(h, frag, body);
      }
      return true, NoAlert;
    }

    /** Copies a fragment into its message; the other slots are untouched. */
    method Fill(h: HmHeader, frag: HmFragment, body: Bytes)
      requires Owned() && State().Ring() && frag == incoming[h.seqNum % MAX_HANDSHAKE_FLIGHT]
      requires frag.Valid() && frag.reassembly != null && h.fragOff + |body| <= frag.msgLen
      modifies frag, frag.data, frag.reassembly
      ensures Owned() && State() == old(State().WithSlot(h.seqNum, frag.Value().Put(h.fragOff, body)))
    {
      hide HmFragment.Valid, HmFragment.Value;
      ghost var idx := h.seqNum % MAX_HANDSHAKE_FLIGHT;
      frag.Receive(h.fragOff, body);
      assert frag.Footprint() <= old(frag.Footprint());
      assert State().slots == old(State()).slots[idx := Some(frag.Value())];
    }

    method ProcessFragments(text: Bytes) returns (ok: bool, alert: Alert)
      requires Owned() && State().Ring()
      modifies Repr
      ensures Owned() && fresh(Repr - old(Repr))
      ensures Spec.ProcessFragments(old(State()), text)
           == if ok then FragOk(State()) else FragError(State(), alert)
    {
      hide HmFragment.Valid, HmFragment.Value;
      var rest := text;
      while rest != []
        invariant Owned() && State().Ring() && fresh(Repr - old(Repr))
        invariant Spec.ProcessFragments(old(State()), text) == Spec.ProcessFragments(State(), rest)
        decreases |rest|
      {
        var parsed := ParseFragment(rest);
        if parsed.None? {
          return false, DecodeError;
        }
        ok, alert := ProcessFragment(parsed.value.hdr, parsed.value.body);
        if !ok {
          return;
        }
        rest := parsed.value.rest;
      }
      return true, NoAlert;
    }

    method ActOn(typ: Byte, text: Bytes) returns (result: ReadResult)
      requires Owned() && State().Ring()
      modifies Repr
      ensures Owned() && fresh(Repr - old(Repr))
      ensures Spec.ActOn(old(State()), typ, text) == (State(), result)
    {
      assert this in Repr;
      hide HandshakeReader.Owned, HmFragment.Valid, HmFragment.Value, Spec.ProcessFragments, Receiver.Ring;
      if typ == RT_APPLICATION_DATA {
        return if records.aead.isNull then ReadError(UnexpectedMessage) else ReadDiscard;
      }
      if typ == RT_CHANGE_CIPHER_SPEC {
        if !records.aead.isNull {
          return ReadError(UnexpectedMessage);
        }
        if text != [MT_CCS] {
          return ReadError(IllegalParameter);
        }
        PutCcs(true);
        return ReadSuccess;
      }
      if typ != RT_HANDSHAKE {
        return ReadError(UnexpectedMessage);
      }
      var ok, alert := ProcessFragments(text);
      return if ok then ReadSuccess else ReadError(alert);
    }

    /** Reads one record; the messages under reassembly are untouched. */
    method OpenOne(input: Bytes) returns (result: OpenResult, consumed: nat)
      requires Owned() && State().Ring()
      modifies records, records.bitmap
      ensures Owned() && State() == old(State()).(rx := records.State()) && State().Ring()
      ensures OpenRecord(old(State()).rx, input) == OpenOutcome(State().rx, result, consumed)
    {
      hide HmFragment.Valid, HmFragment.Value, OpenRecord;
      result, consumed := records.Open(input);
      assert State().slots == old(State()).slots;
    }

    method OpenHandshake(input: Bytes) returns (result: ReadResult, consumed: nat)
      requires Valid()
      modifies Repr
      ensures Valid() && fresh(Repr - old(Repr))
      ensures Spec.OpenHandshake(old(State()), input) == ReadOutcome(State(), result, consumed)
    {
      OpenKeepsValid(State(), input);
      assert records in Repr && records.bitmap in Repr;
      hide HandshakeReader.Owned, HmFragment.Valid, HmFragment.Value, OpenRecord, Spec.ActOn, Receiver.Ring;
      var r;
      r, consumed := OpenOne(input);
      match r
      case Discarded => result := ReadDiscard;
      case Partial => result := ReadPartial;
      case CloseNotify => result := ReadClosed;
      case Failed(alert) => result := ReadError(alert);
      case Opened(typ, text) => result := ActOn(typ, text);
    }

    /** Sets or clears the pending ChangeCipherSpec. */
    method PutCcs(pending: bool)
      requires Owned() && State().Ring()
      modifies this`hasCcs
      ensures Owned() && Repr == old(Repr) && State() == old(State()).(hasCcs := pending)
    {
      hide HmFragment.Valid, HmFragment.Value;
      hasCcs := pending;
      assert State().slots == old(State()).slots;
    }

    method OpenChangeCipherSpec(input: Bytes) returns (result: ReadResult, consumed: nat)
      requires Valid()
      modifies Repr
      ensures Valid() && fresh(Repr - old(Repr))
      ensures Spec.OpenChangeCipherSpec(old(State()), input) == ReadOutcome(State(), result, consumed)
    {
      OpenKeepsValid(State(), input);
      assert this in Repr;
      hide HandshakeReader.Owned, HmFragment.Valid, HmFragment.Value, Spec.OpenHandshake, Receiver.Ring;
      consumed := 0;
      if !hasCcs {
        result, consumed := OpenHandshake(input);
        if result != ReadSuccess {
          return;
        }
      }
      if hasCcs {
        PutCcs(false);
        return ReadSuccess, consumed;
      }
      return ReadDiscard, consumed;
    }

    /** Hands out the current message, if complete, together with its unfragmented serialization. */
    method GetMessage() returns (m: Option<Message>, raw: Bytes)
      requires Valid()
      modifies this`hasMessage
      ensures Valid() && Repr == old(Repr)
      ensures Spec.GetMessage(old(State())) == (State(), m)
      ensures m.Some? ==> m.value.Fits() && raw == m.value.Raw()
    {
      hide HmFragment.Valid, HmFragment.Value;
      var frag := incoming[readSeq % MAX_HANDSHAKE_FLIGHT];
      if frag == null {
        return None, [];
      }
      frag.CompleteIffReleased();
      if frag.reassembly != null {
        return None, [];
      }
      frag.RawIfComplete();
      assert State().Slot(readSeq) == Some(frag.Value());
      m := Some(Message(frag.typ, frag.seqNum, frag.data[HM_HEADER_LENGTH..]));
      raw := frag.data[..];
      assert m.value == frag.Value().AsMessage();
      hasMessage := true;
      assert State().slots == old(State()).slots;
    }

    /** Frees the message of one slot. */
    method Release(idx: nat)
      requires Owned() && idx < MAX_HANDSHAKE_FLIGHT
      modifies incoming
      ensures Owned() && State() == old(State()).(slots := old(State()).slots[idx := None])
    {
      hide HmFragment.Valid, HmFragment.Value;
      incoming[idx] := null;
      assert State().slots == old(State()).slots[idx := None];
    }

    method NextMessage()
      requires Valid() && hasMessage
      modifies this, incoming
      ensures Valid() && Repr == old(Repr) && State() == Spec.NextMessage(old(State()))
    {
      hide HmFragment.Valid, HmFragment.Value, Receiver.Ring, Receiver.Valid;
      ghost var was := State();
      Release(readSeq % MAX_HANDSHAKE_FLIGHT);
      ghost var slots := State().slots;
      readSeq := readSeq + 1;
      hasMessage := false;
      assert State().slots == slots;
      assert State() == Spec.NextMessage(was);
    }

    method HasUnprocessed() returns (has: bool)
      requires Valid()
      ensures has == Spec.HasUnprocessed(State())
    {
      hide HmFragment.Valid, HmFragment.Value;
      if hasCcs {
        return true;
      }
      var current := readSeq % MAX_HANDSHAKE_FLIGHT;
      for i := 0 to MAX_HANDSHAKE_FLIGHT
        invariant forall k | 0 <= k < i :: !State().Unprocessed(k)
      {
        if !(hasMessage && i == current) && incoming[i] != null {
          assert State().Unprocessed(i);
          return true;
        }
      }
      return false;
    }

    method SetReadState(aead: Aead) returns (ok: bool)
      requires Valid()
      modifies Repr
      ensures Valid() && Repr == old(Repr) && Spec.SetReadState(old(State()), aead) == (State(), ok)
    {
      hide HmFragment.Valid, HmFragment.Value;
      var has := HasUnprocessed();
      if has {
        return false;
      }
      records.NextEpoch(aead);
      assert State().slots == old(State()).slots;
      return true;
    }
  }

  ghost predicate GoodSlot(f: HmFragment?)
    reads f, MemoryOf(f)
  {
    f != null ==> f.Valid()
  }

  ghost function MemoryOf(f: HmFragment?): set<object>
    reads f
  {
    if f == null then {} else f.Footprint()
  }

  ghost function ValueOf(f: HmFragment?): Option<Frag>
    requires GoodSlot(f)
    reads f, MemoryOf(f)
  {
    if f == null then None else Some(f.Value())
  }
}
