/**
 The receiving side of the DTLS handshake (sections 4.2.2 and 4.2.3 of RFC 6347): a ring buffer of
 seven partially reassembled messages, its front at the next message to hand out. This module is the
 specification; `DtlsReader` holds the object that implements it.
 */
module DtlsReceiver {
  import opened Wrappers
  import opened DtlsWire
  import opened DtlsReassembly
  import opened DtlsReplay
  import opened DtlsRecord

  datatype Receiver = Receiver(
    rx: Rx,
    readSeq: nat,
    slots: seq<Option<Frag>>,
    hasMessage: bool,
    hasCcs: bool,
    maxMessageLen: nat)
  {
    /**
     An occupied slot holds a message whose number falls into the window and selects that very slot, so a
     live slot is never reused for another message.
     */
    predicate Ring() {
      && |slots| == MAX_HANDSHAKE_FLIGHT
      && forall i | 0 <= i < MAX_HANDSHAKE_FLIGHT :: slots[i].Some? ==>
        && slots[i].value.Fits()
        && slots[i].value.seqNum % MAX_HANDSHAKE_FLIGHT == i
        && readSeq <= slots[i].value.seqNum < readSeq + MAX_HANDSHAKE_FLIGHT
    }

    predicate Valid() {
      Ring() && (hasMessage ==> CurrentComplete())
    }

    function Slot(seqNum: nat): Option<Frag>
      requires Ring()
    {
      slots[seqNum % MAX_HANDSHAKE_FLIGHT]
    }

    /** Whether the next message to hand out has arrived in full. */
    predicate CurrentComplete()
      requires Ring()
    {
      Slot(readSeq).Some? && Slot(readSeq).value.Complete()
    }

    /** Whether slot `i` holds anything but the message being handed out. */
    predicate Unprocessed(i: nat)
      requires Ring() && i < MAX_HANDSHAKE_FLIGHT
    {
      !(hasMessage && i == readSeq % MAX_HANDSHAKE_FLIGHT) && slots[i].Some?
    }

    function WithSlot(seqNum: nat, f: Frag): Receiver
      requires Ring()
    {
      this.(slots := slots[seqNum % MAX_HANDSHAKE_FLIGHT := Some(f)])
    }
  }

  // ----- Fragments -----

  /** The message a fragment belongs to, created if this is its first fragment. */
  function GetIncoming(r: Receiver, h: HmHeader): (f: Option<Frag>)
    requires r.Ring()
  {
    if h.seqNum < r.readSeq || h.seqNum - r.readSeq >= MAX_HANDSHAKE_FLIGHT then None
    else match r.Slot(h.seqNum)
      case Some(f) => if f.typ != h.typ || |f.bytes| != h.msgLen then None else Some(f)
      case None => Some(NewFrag(h))
  }

  function GetIncomingAlert(r: Receiver, h: HmHeader): Alert {
    if h.seqNum < r.readSeq || h.seqNum - r.readSeq >= MAX_HANDSHAKE_FLIGHT then InternalError
    else IllegalParameter
  }

  /** What one fragment does: the new state, or the alert that ends the connection. */
  datatype FragResult = FragOk(r: Receiver) | FragError(r: Receiver, alert: Alert)

  function ProcessFragment(r: Receiver, h: HmHeader, body: Bytes): (o: FragResult)
    requires r.Ring() && h.Fits() && |body| == h.fragLen
    ensures o.r.Ring() && o.r.rx == r.rx && o.r.readSeq == r.readSeq && o.r.hasMessage == r.hasMessage
    ensures o.r.maxMessageLen == r.maxMessageLen && o.r.hasCcs == r.hasCcs
  {
    if h.fragOff > h.msgLen || h.fragOff + h.fragLen > h.msgLen || h.msgLen > r.maxMessageLen then
      FragError(r, IllegalParameter)
    else if r.rx.epoch == 1 && h.seqNum != r.readSeq then FragError(r, UnexpectedMessage)
    else if h.seqNum < r.readSeq || h.seqNum > r.readSeq + MAX_HANDSHAKE_FLIGHT then FragOk(r)
    else match GetIncoming(r, h)
      case None => FragError(r, GetIncomingAlert(r, h))
      case Some(f) => FragOk(r.WithSlot(h.seqNum, if f.Complete() then f else f.Put(h.fragOff, body)))
  }

  /** The fragments of one handshake record, in order, up to the first that fails. */
  function ProcessFragments(r: Receiver, text: Bytes): (o: FragResult)
    requires r.Ring()
    ensures o.r.Ring() && o.r.rx == r.rx && o.r.readSeq == r.readSeq && o.r.hasMessage == r.hasMessage
    ensures o.r.maxMessageLen == r.maxMessageLen && o.r.hasCcs == r.hasCcs
    decreases |text|
  {
    if text == [] then FragOk(r)
    else match ParseFragment(text)
      case None => FragError(r, DecodeError)
      case Some(p) =>
        match ProcessFragment(r, p.hdr, p.body)
        case FragError(r', alert) => FragError(r', alert)
        case FragOk(r') => ProcessFragments(r', p.rest)
  }

  // ----- Records -----

  datatype ReadResult = ReadSuccess | ReadDiscard | ReadPartial | ReadClosed | ReadError(alert: Alert)

  datatype ReadOutcome = ReadOutcome(r: Receiver, result: ReadResult, consumed: nat)

  /** Takes one record off the input and acts on it; handshake and ChangeCipherSpec are expected. */
  function OpenHandshake(r: Receiver, input: Bytes): (o: ReadOutcome)
    requires r.Ring()
    ensures o.r.Ring()
  {
    var rec := OpenRecord(r.rx, input);
    var r1 := r.(rx := rec.rx);
    match rec.result
    case Discarded => ReadOutcome(r1, ReadDiscard, rec.consumed)
    case Partial => ReadOutcome(r1, ReadPartial, rec.consumed)
    case CloseNotify => ReadOutcome(r1, ReadClosed, rec.consumed)
    case Failed(alert) => ReadOutcome(r1, ReadError(alert), rec.consumed)
    case Opened(typ, text) =>
      var (r2, result) := ActOn(r1, typ, text);
      ReadOutcome(r2, result, rec.consumed)
  }

  function ActOn(r: Receiver, typ: Byte, text: Bytes): (o: (Receiver, ReadResult))
    requires r.Ring()
    ensures o.0.Ring()
  {
    if typ == RT_APPLICATION_DATA then
      (r, if r.rx.aead.isNull then ReadError(UnexpectedMessage) else ReadDiscard)
    else if typ == RT_CHANGE_CIPHER_SPEC then
      if !r.rx.aead.isNull then (r, ReadError(UnexpectedMessage))
      else if text != [MT_CCS] then (r, ReadError(IllegalParameter))
      else (r.(hasCcs := true), ReadSuccess)
    else if typ != RT_HANDSHAKE then (r, ReadError(UnexpectedMessage))
    else match ProcessFragments(r, text)
      case FragOk(r') => (r', ReadSuccess)
      case FragError(r', alert) => (r', ReadError(alert))
  }

  /** Waits for a ChangeCipherSpec; one that came early with the handshake was kept. */
  function OpenChangeCipherSpec(r: Receiver, input: Bytes): (o: ReadOutcome)
    requires r.Ring()
    ensures o.r.Ring()
  {
    if r.hasCcs then ReadOutcome(r.(hasCcs := false), ReadSuccess, 0)
    else
      var o := OpenHandshake(r, input);
      if o.result != ReadSuccess then o
      else if o.r.hasCcs then o.(r := o.r.(hasCcs := false))
      else o.(result := ReadDiscard)
  }

  // ----- Messages -----

  /** The current message, if it is complete. */
  function GetMessage(r: Receiver): (o: (Receiver, Option<Message>))
    requires r.Ring()
    ensures o.0.Ring() && (r.Valid() ==> o.0.Valid())
    ensures o.1.Some? ==> o.1.value.Fits()
  {
    if !r.CurrentComplete() then (r, None)
    else (r.(hasMessage := true), Some(r.Slot(r.readSeq).value.AsMessage()))
  }

  /** Releases the current message and moves the window on. */
  function NextMessage(r: Receiver): (o: Receiver)
    requires r.Valid() && r.hasMessage
    ensures o.Valid()
  {
    r.(slots := r.slots[r.readSeq % MAX_HANDSHAKE_FLIGHT := None], readSeq := r.readSeq + 1, hasMessage := false)
  }

  /** Whether anything but the current message has been received and not yet used. */
  predicate HasUnprocessed(r: Receiver)
    requires r.Ring()
  {
    r.hasCcs || exists i | 0 <= i < MAX_HANDSHAKE_FLIGHT :: r.Unprocessed(i)
  }

  /** Switches the read key; refused while the old epoch has leftover data. */
  function SetReadState(r: Receiver, aead: Aead): (o: (Receiver, bool))
    requires r.Ring()
    ensures o.0.Ring() && (r.Valid() ==> o.0.Valid())
  {
    if HasUnprocessed(r) then (r, false)
    else (r.(rx := r.rx.(epoch := r.rx.epoch + 1, window := EMPTY_WINDOW, aead := aead)), true)
  }

  // ----- What every step keeps -----

  /** Opening a record keeps the invariant: a complete current message stays complete. */
  lemma OpenKeepsValid(r: Receiver, input: Bytes)
    requires r.Valid()
    ensures OpenHandshake(r, input).r.Valid() && OpenChangeCipherSpec(r, input).r.Valid()
    ensures OpenHandshake(r, input).r.readSeq == r.readSeq
  {
    hide OpenRecord, ParseFragment;
    var rec := OpenRecord(r.rx, input);
    if rec.result.Opened? && rec.result.typ == RT_HANDSHAKE {
      FragmentsKeepCurrent(r.(rx := rec.rx), rec.result.plaintext);
    }
  }

  lemma FragmentKeepsCurrent(r: Receiver, h: HmHeader, body: Bytes)
    requires r.Ring() && r.CurrentComplete() && h.Fits() && |body| == h.fragLen
    ensures ProcessFragment(r, h, body).r.Slot(r.readSeq) == r.Slot(r.readSeq)
  {
  }

  lemma {:induction false} FragmentsKeepCurrent(r: Receiver, text: Bytes)
    requires r.Ring()
    ensures r.CurrentComplete() ==> ProcessFragments(r, text).r.Slot(r.readSeq) == r.Slot(r.readSeq)
    decreases |text|
  {
    if r.CurrentComplete() && text != [] && ParseFragment(text).Some? {
      var p := ParseFragment(text).value;
      FragmentKeepsCurrent(r, p.hdr, p.body);
      match ProcessFragment(r, p.hdr, p.body)
      case FragError(_, _) =>
      case FragOk(r') => FragmentsKeepCurrent(r', p.rest);
    }
  }

  lemma SlotsAreDistinct(a: nat, b: nat)
    requires a <= b < a + MAX_HANDSHAKE_FLIGHT && a % MAX_HANDSHAKE_FLIGHT == b % MAX_HANDSHAKE_FLIGHT
    ensures a == b
  {
  }

  /** A number in the window that is buffered, other than the message being handed out. */
  predicate Leftover(r: Receiver, n: nat)
    requires r.Ring()
  {
    r.readSeq <= n < r.readSeq + MAX_HANDSHAKE_FLIGHT && r.Slot(n).Some? && !(n == r.readSeq && r.hasMessage)
  }

  lemma UnprocessedIsLeftover(r: Receiver, i: nat) returns (n: nat)
    requires r.Ring() && i < MAX_HANDSHAKE_FLIGHT && r.Unprocessed(i)
    ensures Leftover(r, n)
  {
    hide Frag.Fits, Frag.Complete;
    n := r.slots[i].value.seqNum;
  }

  lemma LeftoverIsUnprocessed(r: Receiver, n: nat)
    requires r.Ring() && Leftover(r, n)
    ensures r.Unprocessed(n % MAX_HANDSHAKE_FLIGHT)
  {
    hide Frag.Fits, Frag.Complete;
    if n % MAX_HANDSHAKE_FLIGHT == r.readSeq % MAX_HANDSHAKE_FLIGHT {
      SlotsAreDistinct(r.readSeq, n);
    }
  }

  /**
   A change of read epoch succeeds exactly when nothing of the old epoch is left over: no buffered message
   other than the current one, and no pending ChangeCipherSpec.
   */
  lemma EpochChangeNeedsEmptyBuffer(r: Receiver, aead: Aead)
    requires r.Valid()
    ensures SetReadState(r, aead).1 <==> !r.hasCcs && forall n: nat :: !Leftover(r, n)
  {
    hide Leftover, Receiver.Unprocessed, Receiver.CurrentComplete;
    if n: nat :| Leftover(r, n) {
      LeftoverIsUnprocessed(r, n);
      assert HasUnprocessed(r);
    } else if i: nat :| i < MAX_HANDSHAKE_FLIGHT && r.Unprocessed(i) {
      var m := UnprocessedIsLeftover(r, i);
    }
  }

  // ----- Fragments that end the connection -----

  /** The fragment lies within a message that is not too long. */
  predicate WellFormed(r: Receiver, h: HmHeader) {
    h.fragOff + h.fragLen <= h.msgLen <= r.maxMessageLen
  }

  /** The number may come: under the first key the next one only, otherwise any but the first one beyond the window. */
  predicate MayCome(r: Receiver, n: nat) {
    if r.rx.epoch == 1 then n == r.readSeq else n != r.readSeq + MAX_HANDSHAKE_FLIGHT
  }

  predicate InWindow(r: Receiver, n: nat) { r.readSeq <= n < r.readSeq + MAX_HANDSHAKE_FLIGHT }

  /** What is there of the message so far has the type and the length of the header. */
  predicate Matches(r: Receiver, h: HmHeader)
    requires r.Ring()
  {
    InWindow(r, h.seqNum) && r.Slot(h.seqNum).Some? ==>
      r.Slot(h.seqNum).value.typ == h.typ && |r.Slot(h.seqNum).value.bytes| == h.msgLen
  }

  predicate Acceptable(r: Receiver, h: HmHeader)
    requires r.Ring()
  {
    WellFormed(r, h) && MayCome(r, h.seqNum) && Matches(r, h)
  }

  /** The alert that any other fragment causes; the first number beyond the window is an internal error. */
  function Objection(r: Receiver, h: HmHeader): Alert {
    if !WellFormed(r, h) then IllegalParameter
    else if MayCome(r, h.seqNum) then IllegalParameter
    else if r.rx.epoch == 1 then UnexpectedMessage
    else InternalError
  }

  /**
   Which fragments end the connection: those that do not fit their message, that do not match what is there of it, or
   whose number may not come. The filter admits the first number beyond the window and the lookup then refuses it,
   where every other number outside the window is ignored.
   */
  lemma FragmentIsFatalExactly(r: Receiver, h: HmHeader, body: Bytes)
    requires r.Ring() && h.Fits() && |body| == h.fragLen
    ensures var o := ProcessFragment(r, h, body);
      && (o.FragOk? <==> Acceptable(r, h))
      && (o.FragError? ==> o == FragError(r, Objection(r, h)))
      && (o.FragOk? && !InWindow(r, h.seqNum) ==> o.r == r)
      && (o.FragOk? && InWindow(r, h.seqNum) ==>
            var f := o.r.Slot(h.seqNum);
            && o.r == r.(slots := r.slots[h.seqNum % MAX_HANDSHAKE_FLIGHT := f])
            && f.Some? && f.value.typ == h.typ && |f.value.bytes| == h.msgLen)
  {
    hide Frag.Complete;
  }

  // ----- Records that end the connection -----

  /** The fragments of a handshake record, if it consists of fragments. */
  function Fragments(text: Bytes): Option<seq<Parsed>>
    decreases |text|
  {
    if text == [] then Some([])
    else match ParseFragment(text)
      case None => None
      case Some(p) =>
        match Fragments(p.rest)
        case None => None
        case Some(ps) => Some([p] + ps)
  }

  /** Fragments of one message agree on its type and length. */
  predicate Agree(r: Receiver, p: HmHeader, q: HmHeader) {
    InWindow(r, p.seqNum) && p.seqNum == q.seqNum ==> p.typ == q.typ && p.msgLen == q.msgLen
  }

  predicate AllAcceptable(r: Receiver, ps: seq<Parsed>)
    requires r.Ring()
  {
    && (forall i | 0 <= i < |ps| :: Acceptable(r, ps[i].hdr))
    && forall i, j | 0 <= i < j < |ps| :: Agree(r, ps[i].hdr, ps[j].hdr)
  }

  /** After a fragment is taken, another is acceptable if it was before and agrees with it. */
  lemma StillAcceptable(r: Receiver, p: Parsed, h: HmHeader)
    requires r.Ring() && p.hdr.Fits() && |p.body| == p.hdr.fragLen && Acceptable(r, p.hdr)
    ensures var t := ProcessFragment(r, p.hdr, p.body).r;
      (Acceptable(t, h) <==> Acceptable(r, h) && Agree(r, p.hdr, h))
  {
    hide ProcessFragment, Frag.Fits;
    FragmentIsFatalExactly(r, p.hdr, p.body);
    if InWindow(r, p.hdr.seqNum) && InWindow(r, h.seqNum) && p.hdr.seqNum != h.seqNum {
      if p.hdr.seqNum % MAX_HANDSHAKE_FLIGHT == h.seqNum % MAX_HANDSHAKE_FLIGHT {
        SlotsDiffer(r.readSeq, p.hdr.seqNum, h.seqNum);
      }
    }
  }

  /** Numbers in the window select different slots. */
  lemma SlotsDiffer(base: nat, a: nat, b: nat)
    requires base <= a < base + MAX_HANDSHAKE_FLIGHT && base <= b < base + MAX_HANDSHAKE_FLIGHT
    requires a % MAX_HANDSHAKE_FLIGHT == b % MAX_HANDSHAKE_FLIGHT
    ensures a == b
  {
  }

  lemma AcceptableNext(r: Receiver, p: Parsed, rest: seq<Parsed>)
    requires r.Ring() && p.hdr.Fits() && |p.body| == p.hdr.fragLen && Acceptable(r, p.hdr)
    ensures var t := ProcessFragment(r, p.hdr, p.body).r;
      (AllAcceptable(r, [p] + rest) <==> AllAcceptable(t, rest))
  {
    hide ProcessFragment, Acceptable, Receiver.Ring;
    var t, ps := ProcessFragment(r, p.hdr, p.body).r, [p] + rest;
    forall h: HmHeader
      ensures Acceptable(t, h) <==> Acceptable(r, h) && Agree(r, p.hdr, h)
    {
      StillAcceptable(r, p, h);
    }
    if AllAcceptable(r, ps) {
      forall i | 0 <= i < |rest|
        ensures Acceptable(t, rest[i].hdr)
      {
        assert rest[i] == ps[i + 1] && ps[0] == p;
      }
      forall i, j | 0 <= i < j < |rest|
        ensures Agree(t, rest[i].hdr, rest[j].hdr)
      {
        assert rest[i] == ps[i + 1] && rest[j] == ps[j + 1];
      }
    }
    if AllAcceptable(t, rest) {
      forall i | 0 <= i < |ps|
        ensures Acceptable(r, ps[i].hdr)
      {
        assert i > 0 ==> ps[i] == rest[i - 1];
      }
      forall i, j | 0 <= i < j < |ps|
        ensures Agree(r, ps[i].hdr, ps[j].hdr)
      {
        assert ps[j] == rest[j - 1] && (i > 0 ==> ps[i] == rest[i - 1]);
      }
    }
  }

  /**
   A handshake record, authentic or not in what it says, is taken exactly if it consists of fragments, each of them is
   acceptable, and those of one message agree.
   */
  lemma {:induction false} RecordIsTakenExactly(r: Receiver, text: Bytes)
    requires r.Ring()
    ensures ProcessFragments(r, text).FragOk? <==>
      Fragments(text).Some? && AllAcceptable(r, Fragments(text).value)
    decreases |text|
  {
    hide ProcessFragment, Acceptable, ParseFragment, AllAcceptable, Receiver.Ring;
    if text == [] {
      NoneToAccept(r);
    } else if ParseFragment(text).Some? {
      var p := ParseFragment(text).value;
      FragmentIsFatalExactly(r, p.hdr, p.body);
      var t := ProcessFragment(r, p.hdr, p.body).r;
      if Acceptable(r, p.hdr) {
        RecordIsTakenExactly(t, p.rest);
        if Fragments(p.rest).Some? {
          AcceptableNext(r, p, Fragments(p.rest).value);
        }
      } else if Fragments(p.rest).Some? {
        FirstIsNotAcceptable(r, p, Fragments(p.rest).value);
      }
    }
  }

  lemma NoneToAccept(r: Receiver)
    requires r.Ring()
    ensures AllAcceptable(r, [])
  {
  }

  lemma FirstIsNotAcceptable(r: Receiver, p: Parsed, rest: seq<Parsed>)
    requires r.Ring() && !Acceptable(r, p.hdr)
    ensures !AllAcceptable(r, [p] + rest)
  {
    assert ([p] + rest)[0] == p;
  }
}
