/**
 The DTLS record layer (section 4.1 of RFC 6347): sealing records under the current or the previous
 write epoch, and opening them under the read epoch behind the replay window. Encryption is an abstract
 invertible function.
 */
module DtlsRecord {
  import opened Wrappers
  import opened DtlsWire
  import opened DtlsReplay

  const RT_HEADER_LENGTH := 13
  const MAX_PLAIN_LENGTH := 16384
  const MAX_ENCRYPTED_LENGTH := 16384 + 256 + 64
  const MAX_WARNING_ALERTS := 4

  const RT_CHANGE_CIPHER_SPEC: Byte := 20
  const RT_ALERT: Byte := 21
  const RT_HANDSHAKE: Byte := 22
  const RT_APPLICATION_DATA: Byte := 23

  /** The only content a ChangeCipherSpec may have. */
  const MT_CCS: Byte := 1

  const DTLS1_VERSION_MAJOR := 0xfe

  datatype Alert =
    | NoAlert | UnexpectedMessage | RecordOverflow | IllegalParameter | DecodeError | InternalError

  // ----- Encryption -----

  /**
   An AEAD keyed for one direction of one epoch. `seal` and `open` take the record type, the record
   version, the eight sequence bytes and the text.
   */
  datatype Aead = Aead(
    isNull: bool,
    recordVersion: nat,
    explicitNonceLen: nat,
    tagOverhead: nat,
    seal: (Byte, nat, Bytes, Bytes) -> Option<Bytes>,
    open: (Byte, nat, Bytes, Bytes) -> Option<Bytes>)
  {
    function MaxOverhead(): nat { explicitNonceLen + tagOverhead }

    /** Opening inverts sealing, and sealing adds at most `MaxOverhead` bytes. */
    ghost predicate Sound() {
      && recordVersion < 0x1_0000
      && (isNull ==> recordVersion / 0x100 == DTLS1_VERSION_MAJOR)
      && forall typ: Byte, version: nat, sequence: Bytes, text: Bytes
          {:trigger seal(typ, version, sequence, text)} ::
          seal(typ, version, sequence, text).Some? ==>
            && |seal(typ, version, sequence, text).value| <= |text| + MaxOverhead()
            && open(typ, version, sequence, seal(typ, version, sequence, text).value) == Some(text)
    }
  }

  // ----- Records -----

  /** A sealed record, with the plaintext it carries. */
  datatype Rec = Rec(typ: Byte, version: nat, epoch: nat, seqNum: nat, plaintext: Bytes, ciphertext: Bytes) {
    predicate Fits() {
      version < 0x1_0000 && epoch < 0x1_0000 && seqNum < Pow256(6) && |ciphertext| < 0x1_0000
    }

    function Wire(): (b: Bytes)
      requires Fits()
      ensures |b| == RT_HEADER_LENGTH + |ciphertext|
    {
      [typ] + PutU16(version) + Sequence(epoch, seqNum) + PutU16(|ciphertext|) + ciphertext
    }
  }

  /** The epoch and the 48-bit sequence number, as they appear in the record. */
  function Sequence(epoch: nat, seqNum: nat): (b: Bytes)
    requires epoch < 0x1_0000
    ensures |b| == 8
  {
    PutU16(epoch) + PutBigEndian(seqNum, 6)
  }

  /** Distinct pairs of epoch and sequence number have distinct sequence bytes. */
  lemma SequenceInjective(e1: nat, n1: nat, e2: nat, n2: nat)
    requires e1 < 0x1_0000 && e2 < 0x1_0000 && n1 < Pow256(6) && n2 < Pow256(6)
    requires Sequence(e1, n1) == Sequence(e2, n2)
    ensures e1 == e2 && n1 == n2
  {
    var s, t := Sequence(e1, n1), Sequence(e2, n2);
    assert s[..2] == PutU16(e1) && t[..2] == PutU16(e2);
    assert s[2..] == PutBigEndian(n1, 6) && t[2..] == PutBigEndian(n2, 6);
    U16RoundTrip(e1);
    U16RoundTrip(e2);
    PutBigEndianRoundTrip(n1, 6);
    PutBigEndianRoundTrip(n2, 6);
  }

  /** Where the fields of a record lie (section 4.1 of RFC 6347), most significant byte first. */
  lemma RecordLayout(r: Rec)
    requires r.Fits()
    ensures var b := r.Wire();
      && b[0] == r.typ && BigEndian(b[1..3]) == r.version && BigEndian(b[3..5]) == r.epoch
      && BigEndian(b[5..11]) == r.seqNum && BigEndian(b[11..13]) == |r.ciphertext| && b[13..] == r.ciphertext
  {
    hide BigEndian, PutU16, PutBigEndian, Pow256;
    var b := r.Wire();
    assert b[1..3] == PutU16(r.version) && b[3..5] == PutU16(r.epoch);
    assert b[5..11] == PutBigEndian(r.seqNum, 6) && b[11..13] == PutU16(|r.ciphertext|);
    U16IsBigEndian(r.version);
    U16IsBigEndian(r.epoch);
    U16IsBigEndian(|r.ciphertext|);
    PutBigEndianRoundTrip(r.seqNum, 6);
  }

  datatype ParsedRecord = ParsedRecord(typ: Byte, version: nat, sequence: Bytes, body: Bytes, rest: Bytes)

  /** Reads one record header and body; fails on a short input or an oversized body. */
  function ParseRecord(b: Bytes): (r: Option<ParsedRecord>)
    ensures r.Some? ==> |r.value.sequence| == 8
    ensures r.Some? ==> |b| == RT_HEADER_LENGTH + |r.value.body| + |r.value.rest|
  {
    if |b| < RT_HEADER_LENGTH then None
    else
      var len := GetU16(b[11..13]);
      if |b| - RT_HEADER_LENGTH < len || len > MAX_ENCRYPTED_LENGTH then None
      else Some(ParsedRecord(b[0], GetU16(b[1..3]), b[3..11], b[13..13 + len], b[13 + len..]))
  }

  /** A sealed record parses to itself, whatever follows it in the packet. */
  lemma ParseWire(r: Rec, rest: Bytes)
    requires r.Fits() && |r.ciphertext| <= MAX_ENCRYPTED_LENGTH
    ensures ParseRecord(r.Wire() + rest)
         == Some(ParsedRecord(r.typ, r.version, Sequence(r.epoch, r.seqNum), r.ciphertext, rest))
  {
    var b := r.Wire() + rest;
    assert b[1..3] == PutU16(r.version) && b[3..11] == Sequence(r.epoch, r.seqNum);
    assert b[11..13] == PutU16(|r.ciphertext|);
    U16RoundTrip(r.version);
    U16RoundTrip(|r.ciphertext|);
    assert b[13..13 + |r.ciphertext|] == r.ciphertext && b[13 + |r.ciphertext|..] == rest;
  }

  // ----- Reading -----

  /** The read half of the record layer. */
  datatype Rx = Rx(epoch: nat, window: Window, aead: Aead, closed: bool, warnings: nat)

  datatype OpenResult =
    | Opened(typ: Byte, plaintext: Bytes)
    | Discarded
    | Partial
    | CloseNotify
    | Failed(alert: Alert)

  /** What reading leaves: the new state, the outcome and how much of the input is used up. */
  datatype OpenOutcome = OpenOutcome(rx: Rx, result: OpenResult, consumed: nat)

  function ProcessAlert(rx: Rx, body: Bytes): (Rx, OpenResult) {
    if |body| != 2 then (rx, Failed(DecodeError))
    else if body[0] == 1 then
      if body[1] == 0 then (rx.(closed := true), CloseNotify)
      else
        var counted := rx.(warnings := rx.warnings + 1);
        (counted, if counted.warnings > MAX_WARNING_ALERTS then Failed(UnexpectedMessage) else Discarded)
    else if body[0] == 2 then (rx, Failed(NoAlert))
    else (rx, Failed(IllegalParameter))
  }

  predicate VersionAccepted(aead: Aead, version: nat) {
    if aead.isNull then version / 0x100 == DTLS1_VERSION_MAJOR else version == aead.recordVersion
  }

  function OpenRecord(rx: Rx, input: Bytes): (o: OpenOutcome)
    ensures o.consumed <= |input|
  {
    if rx.closed then OpenOutcome(rx, CloseNotify, 0)
    else if input == [] then OpenOutcome(rx, Partial, 0)
    else match ParseRecord(input)
      case None => OpenOutcome(rx, Discarded, |input|)
      case Some(p) =>
        var consumed := |input| - |p.rest|;
        if !VersionAccepted(rx.aead, p.version) then OpenOutcome(rx, Discarded, |input|)
        else if GetU16(p.sequence[..2]) != rx.epoch || rx.window.ShouldDiscard(BigEndian(p.sequence)) then
          OpenOutcome(rx, Discarded, consumed)
        else match rx.aead.open(p.typ, p.version, p.sequence, p.body)
          case None => OpenOutcome(rx, Discarded, consumed)
          case Some(text) =>
            if |text| > MAX_PLAIN_LENGTH then OpenOutcome(rx, Failed(RecordOverflow), consumed)
            else
              var seen := rx.(window := rx.window.Record(BigEndian(p.sequence)));
              if p.typ == RT_ALERT then
                var (rx', result) := ProcessAlert(seen, text);
                OpenOutcome(rx', result, consumed)
              else OpenOutcome(seen.(warnings := 0), Opened(p.typ, text), consumed)
  }

  /** The record layer of one connection, reading. */
  class RecordReader {
    var epoch: nat
    const bitmap: Bitmap
    var aead: Aead
    var closed: bool
    var warnings: nat

    ghost function State(): Rx
      reads this, bitmap
    {
      Rx(epoch, bitmap.State(), aead, closed, warnings)
    }

    constructor (aead: Aead)
      ensures State() == Rx(0, EMPTY_WINDOW, aead, false, 0) && fresh(bitmap)
    {
      this.epoch, this.aead, this.closed, this.warnings := 0, aead, false, 0;
      this.bitmap := new Bitmap();
    }

    method Open(input: Bytes) returns (result: OpenResult, consumed: nat)
      modifies this, bitmap
      ensures OpenRecord(old(State()), input) == OpenOutcome(State(), result, consumed)
    {
      if closed {
        return CloseNotify, 0;
      }
      if input == [] {
        return Partial, 0;
      }
      var parsed := ParseRecord(input);
      if parsed.None? {
        return Discarded, |input|;
      }
      var p := parsed.value;
      if !VersionAccepted(aead, p.version) {
        return Discarded, |input|;
      }
      consumed := |input| - |p.rest|;
      var replay := bitmap.ShouldDiscard(p.sequence);
      if GetU16(p.sequence[..2]) != epoch || replay {
        return Discarded, consumed;
      }
      var text := aead.open(p.typ, p.version, p.sequence, p.body);
      if text.None? {
        return Discarded, consumed;
      }
      if |text.value| > MAX_PLAIN_LENGTH {
        return Failed(RecordOverflow), consumed;
      }
      bitmap.Record(p.sequence);
      if p.typ == RT_ALERT {
        result := Alerted(text.value);
        return result, consumed;
      }
      warnings := 0;
      return Opened(p.typ, text.value), consumed;
    }

    method Alerted(body: Bytes) returns (result: OpenResult)
      modifies this
      ensures ProcessAlert(old(State()), body) == (State(), result)
    {
      if |body| != 2 {
        return Failed(DecodeError);
      }
      if body[0] == 1 {
        if body[1] == 0 {
          closed := true;
          return CloseNotify;
        }
        warnings := warnings + 1;
        return if warnings > MAX_WARNING_ALERTS then Failed(UnexpectedMessage) else Discarded;
      }
      if body[0] == 2 {
        return Failed(NoAlert);
      }
      return Failed(IllegalParameter);
    }

    /** Moves to the next epoch: a new key and an empty window. */
    method NextEpoch(aead: Aead)
      modifies this, bitmap
      ensures State() == old(State()).(epoch := old(epoch) + 1, window := EMPTY_WINDOW, aead := aead)
    {
      epoch := epoch + 1;
      bitmap.Reset();
      this.aead := aead;
    }
  }

  // ----- Writing -----

  /** The write half: the counters and keys of the current epoch and of the one before. */
  datatype Tx = Tx(epoch: nat, seqNum: nat, aead: Aead, lastSeqNum: nat, lastAead: Aead) {
    predicate Fits() {
      epoch < 0x1_0000 && seqNum < Pow256(6) && lastSeqNum < Pow256(6) && aead.recordVersion < 0x1_0000
    }

    function AeadFor(previous: bool): Aead { if previous then lastAead else aead }

    function EpochFor(previous: bool): nat
      requires previous ==> epoch >= 1
    {
      if previous then epoch - 1 else epoch
    }

    function SeqNumFor(previous: bool): nat { if previous then lastSeqNum else seqNum }

    /** One sequence number used up; after the last one the counter is back at zero. */
    function Advance(previous: bool): Tx {
      var next := (SeqNumFor(previous) + 1) % Pow256(6);
      if previous then this.(lastSeqNum := next) else this.(seqNum := next)
    }
  }

  function MaxSealOverhead(tx: Tx, previous: bool): nat {
    RT_HEADER_LENGTH + tx.AeadFor(previous).MaxOverhead()
  }

  function SealPrefixLen(tx: Tx, previous: bool): nat {
    RT_HEADER_LENGTH + tx.AeadFor(previous).explicitNonceLen
  }

  /** `rec` carries its plaintext encrypted under the key and with the epoch of the current or previous state. */
  predicate SealedUnder(rec: Rec, tx: Tx, previous: bool)
    requires previous ==> tx.epoch >= 1
  {
    && rec.Fits() && rec.epoch == tx.EpochFor(previous) && rec.version == tx.aead.recordVersion
    && tx.AeadFor(previous).seal(rec.typ, rec.version, Sequence(rec.epoch, rec.seqNum), rec.plaintext)
       == Some(rec.ciphertext)
  }

  datatype SealOutcome = SealOutcome(tx: Tx, rec: Option<Rec>)

  /**
   Seals one record. The sequence number is used up once the cipher has run, even when the record is
   then refused for wrap-around or for its length.
   */
  function Seal(tx: Tx, previous: bool, typ: Byte, text: Bytes, maxOut: nat): (o: SealOutcome)
    requires tx.Fits() && (previous ==> tx.epoch >= 1)
    ensures o.tx.Fits() && o.tx == tx.(seqNum := o.tx.seqNum, lastSeqNum := o.tx.lastSeqNum)
    ensures o.rec.Some? ==>
      && o.rec.value.Fits() && |o.rec.value.Wire()| <= maxOut
      && o.rec.value.typ == typ && o.rec.value.plaintext == text
      && SealedUnder(o.rec.value, tx, previous)
  {
    if maxOut < RT_HEADER_LENGTH then SealOutcome(tx, None)
    else
      var epoch, n := tx.EpochFor(previous), tx.SeqNumFor(previous);
      var version := tx.aead.recordVersion;
      match tx.AeadFor(previous).seal(typ, version, Sequence(epoch, n), text)
      case None => SealOutcome(tx, None)
      case Some(ct) =>
        if |ct| > maxOut - RT_HEADER_LENGTH then SealOutcome(tx, None)
        else if n + 1 == Pow256(6) || |ct| >= 0x1_0000 then SealOutcome(tx.Advance(previous), None)
        else SealOutcome(tx.Advance(previous), Some(Rec(typ, version, epoch, n, text, ct)))
  }

  /** Switches to a new key; the old counter and key stay available for retransmissions. */
  function NextWriteEpoch(tx: Tx, aead: Aead): Tx {
    Tx(tx.epoch + 1, 0, aead, tx.seqNum, tx.aead)
  }

  // ----- In-place sequence counters -----

  function Increment(b: Bytes): (r: Bytes)
    ensures |r| == |b|
  {
    if b == [] then []
    else
      var n := |b| - 1;
      if b[n] != 0xff then b[..n] + [b[n] + 1] else Increment(b[..n]) + [0]
  }

  /** Incrementing byte by byte adds one, modulo the width of the counter. */
  lemma {:induction false} IncrementAddsOne(b: Bytes)
    ensures BigEndian(b) < Pow256(|b|)
    ensures BigEndian(Increment(b)) == (BigEndian(b) + 1) % Pow256(|b|)
  {
    if b != [] {
      var n := |b| - 1;
      var front := b[..n];
      IncrementAddsOne(front);
      var x, p := BigEndian(front), Pow256(n);
      if b[n] != 0xff {
        assert (b[..n] + [b[n] + 1])[..n] == front;
        SmallMod(BigEndian(b) + 1, 0x100 * p);
      } else {
        assert Increment(b)[..n] == Increment(front);
        CarryMod(x, p, 0x100 * p);
      }
    }
  }

  lemma SmallMod(x: nat, m: nat)
    requires x < m
    ensures x % m == x
  {
  }

  lemma CarryMod(x: nat, p: nat, m: nat)
    requires x < p && m == 0x100 * p
    ensures (x + 1) % p * 0x100 == (x * 0x100 + 0x100) % m
  {
    if x + 1 == p {
      ModSelf(p);
      ModSelf(m);
    } else {
      SmallMod(x + 1, p);
      SmallMod(x * 0x100 + 0x100, m);
    }
  }

  lemma ModSelf(m: nat)
    requires m > 0
    ensures m % m == 0
  {
  }

  predicate AllOnes(b: Bytes) {
    forall k | 0 <= k < |b| :: b[k] == 0xff
  }

  lemma CounterParts(ctr: array<Byte>, was: Bytes, i: nat)
    requires ctr.Length == 8 && |was| == 6 && 2 <= i < 8
    requires forall k | 2 <= k < i :: ctr[k] == was[k - 2]
    ensures ctr[2..] == was[..i - 2] + [ctr[i]] + ctr[i + 1..]
    ensures ctr[i..] == [ctr[i]] + ctr[i + 1..]
  {
  }

  /** Increments the six counter bytes of `ctr`; reports a wrap-around, after which they are all zero. */
  method SequenceUpdate(ctr: array<Byte>) returns (ok: bool)
    requires ctr.Length == 8
    modifies ctr
    ensures ctr[..2] == old(ctr[..2])
    ensures ctr[2..] == Increment(old(ctr[2..]))
    ensures ok == !AllOnes(old(ctr[2..]))
  {
    ghost var was := ctr[2..];
    assert was[..6] == was && ctr[8..] == [];
    var i := 7;
    while i >= 2
      invariant 1 <= i <= 7
      invariant forall k | 0 <= k <= i :: ctr[k] == old(ctr[k])
      invariant forall k | i - 1 <= k < 6 :: was[k] == 0xff
      invariant Increment(was) == Increment(was[..i - 1]) + ctr[i + 1..]
    {
      ghost var tail, front := ctr[i + 1..], was[..i - 1];
      assert ctr[i] == was[i - 2];
      ctr[i] := (ctr[i] as int + 1) % 0x100;
      assert ctr[i] == if was[i - 2] == 0xff then 0 else was[i - 2] + 1;
      assert ctr[i + 1..] == tail && front[..i - 2] == was[..i - 2];
      CounterParts(ctr, was, i);
      if ctr[i] != 0 {
        assert was[i - 2] != 0xff;
        return true;
      }
      i := i - 1;
    }
    assert was[..0] == [];
    return false;
  }

  /** The counter wraps exactly at its largest value, and then to zero. */
  lemma {:induction false} OnesIsLast(b: Bytes)
    ensures AllOnes(b) <==> BigEndian(b) + 1 == Pow256(|b|)
  {
    if b != [] {
      var n := |b| - 1;
      OnesIsLast(b[..n]);
      IncrementAddsOne(b[..n]);
      assert AllOnes(b) <==> AllOnes(b[..n]) && b[n] == 0xff;
    }
  }
}
