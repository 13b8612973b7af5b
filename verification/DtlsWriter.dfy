/**
 The object behind the write half of `DtlsRecord`: two eight-byte counters, of which the last six bytes
 are incremented in place, for the current and the previous epoch.
 */
module DtlsWriter {
  import opened Wrappers
  import opened DtlsWire
  import opened DtlsRecord
  import Spec = DtlsRecord

  class RecordWriter {
    var epoch: nat
    const sequence: array<Byte>
    var aead: Aead
    const lastSequence: array<Byte>
    var lastAead: Aead

    ghost predicate Valid()
      reads this
    {
      && sequence != lastSequence && sequence.Length == 8 && lastSequence.Length == 8
      && epoch < 0x1_0000 && aead.recordVersion < 0x1_0000
    }

    ghost function State(): (tx: Tx)
      requires Valid()
      reads this, sequence, lastSequence
      ensures tx.Fits() && tx.epoch == epoch && tx.aead == aead && tx.lastAead == lastAead
    {
      CounterBound(sequence[2..]);
      CounterBound(lastSequence[2..]);
      Tx(epoch, BigEndian(sequence[2..]), aead, BigEndian(lastSequence[2..]), lastAead)
    }

    constructor (aead: Aead)
      requires aead.recordVersion < 0x1_0000
      ensures Valid() && State() == Tx(0, 0, aead, 0, aead)
      ensures fresh(sequence) && fresh(lastSequence)
    {
      epoch, this.aead, lastAead := 0, aead, aead;
      sequence := new Byte[8](_ => 0);
      lastSequence := new Byte[8](_ => 0);
      new;
      ZeroIsZero(sequence[2..]);
      ZeroIsZero(lastSequence[2..]);
    }

    /** Encrypts one record under the current or the previous epoch. */
    method Seal(previous: bool, typ: Byte, text: Bytes, maxOut: nat) returns (rec: Option<Rec>)
      requires Valid() && (previous ==> epoch >= 1)
      modifies sequence, lastSequence
      ensures Valid() && Spec.Seal(old(State()), previous, typ, text, maxOut) == SealOutcome(State(), rec)
    {
      hide BigEndian, Pow256, PutBigEndian, PutU16, Increment, AllOnes;
      if maxOut < RT_HEADER_LENGTH {
        return None;
      }
      var e := if previous then epoch - 1 else epoch;
      var cipher := if previous then lastAead else aead;
      var counter := if previous then lastSequence else sequence;
      var number := PutU16(e) + counter[2..];
      var n := BigEndian(counter[2..]);
      CounterBytes(counter[2..]);
      assert number == Sequence(e, n);
      var sealed := cipher.seal(typ, aead.recordVersion, number, text);
      if sealed.None? || |sealed.value| > maxOut - RT_HEADER_LENGTH {
        return None;
      }
      OnesIsLast(counter[2..]);
      IncrementAddsOne(counter[2..]);
      ghost var was := State();
      var ok := SequenceUpdate(counter);
      assert State() == was.Advance(previous);
      if !ok || |sealed.value| >= 0x1_0000 {
        return None;
      }
      return Some(Rec(typ, aead.recordVersion, e, n, text, sealed.value));
    }

    /** Copies the counter of the old epoch aside and starts the new one at zero. */
    method SetWriteState(aead: Aead)
      requires Valid() && epoch + 1 < 0x1_0000 && aead.recordVersion < 0x1_0000
      modifies this, sequence, lastSequence
      ensures Valid() && State() == NextWriteEpoch(old(State()), aead)
      ensures epoch == old(epoch) + 1 && this.aead == aead && State().seqNum == 0
      ensures lastAead == old(this.aead) && State().lastSeqNum == old(State().seqNum)
    {
      epoch := epoch + 1;
      for i := 0 to 8
        invariant forall k | 0 <= k < 8 :: lastSequence[k] == (if k < i then sequence[k] else old(lastSequence[k]))
        invariant sequence[..] == old(sequence[..]) && epoch == old(epoch) + 1 && this.aead == old(this.aead)
      {
        lastSequence[i] := sequence[i];
      }
      assert lastSequence[2..] == old(sequence[2..]);
      for i := 0 to 8
        invariant forall k | 0 <= k < i :: sequence[k] == 0
        invariant lastSequence[2..] == old(sequence[2..]) && epoch == old(epoch) + 1 && this.aead == old(this.aead)
      {
        sequence[i] := 0;
      }
      ZeroIsZero(sequence[2..]);
      lastAead := this.aead;
      this.aead := aead;
    }
  }

  lemma CounterBound(b: Bytes)
    ensures BigEndian(b) < Pow256(|b|)
  {
    IncrementAddsOne(b);
  }

  /** The bytes of a counter are the big-endian form of its value. */
  lemma CounterBytes(b: Bytes)
    ensures PutBigEndian(BigEndian(b), |b|) == b
  {
    CounterBound(b);
    PutBigEndianRoundTrip(BigEndian(b), |b|);
    BigEndianInjective(PutBigEndian(BigEndian(b), |b|), b);
  }

  lemma {:induction false} ZeroIsZero(b: Bytes)
    requires forall k | 0 <= k < |b| :: b[k] == 0
    ensures BigEndian(b) == 0
  {
    if b != [] {
      ZeroIsZero(b[..|b| - 1]);
    }
  }
}
