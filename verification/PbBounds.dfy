/**
 Whatever the bytes say, what nanopb decodes fits the storage that the descriptor declares: counts, lengths and numbers
 are within bounds, at every depth. Nothing is asked of the input.
 */
module PbBounds {
  import opened Wrappers
  import opened PbVarint
  import opened PbModel
  import opened PbEncode
  import opened PbDecode
  import opened PbRoundTrip

  // ----- Within bounds -----

  predicate ValueInBounds(f: Field, v: Value)
    decreases f, 0
  {
    match f.ltype
    case Varint => v.IntV? && SignedFits(v.n, f.dataSize)
    case UVarint => v.IntV? && UnsignedFits(v.n, f.dataSize)
    case SVarint => v.IntV? && SignedFits(v.n, f.dataSize)
    case Fixed32 => v.IntV? && 0 <= v.n < TWO_32
    case Fixed64 => v.IntV? && 0 <= v.n < TWO_64
    case BytesType => v.BytesV? && BYTES_HEADER + |v.data| <= f.dataSize
    case StringType => v.StringV? && |v.chars| + 1 <= f.dataSize
    case FixedLengthBytes => v.FixedV? && |v.bytes| == f.dataSize
    case Submessage => v.MessageV? && f.ptr.Sub? && InBounds(f.ptr.desc, v.slots)
  }

  predicate SlotInBounds(f: Field, slot: Slot)
    decreases f, 1
  {
    match f.htype
    case Required => slot.Single? && ValueInBounds(f, slot.v)
    case Optional =>
      if f.hasSize then slot.Opt? && (slot.o.Some? ==> ValueInBounds(f, slot.o.value))
      else slot.Single? && ValueInBounds(f, slot.v)
    case Repeated =>
      && slot.Many? && |slot.items| <= f.arraySize
      && forall k | 0 <= k < |slot.items| :: ValueInBounds(f, slot.items[k])
    case Oneof =>
      slot.Union? && (slot.sel.Some? && slot.sel.value.tag == f.tag ==> ValueInBounds(f, slot.sel.value.value))
  }

  predicate SlotAtInBounds(d: Descriptor, slots: seq<Slot>, i: nat)
    requires i < |d.fields|
    decreases d, 0
  {
    SlotOf(d, i) < |slots| && SlotInBounds(d.fields[i], slots[SlotOf(d, i)])
  }

  /** A message within the bounds of its descriptor. */
  predicate InBounds(d: Descriptor, slots: seq<Slot>)
    decreases d, 1
  {
    |slots| == SlotCount(d) && forall i | 0 <= i < |d.fields| :: SlotAtInBounds(d, slots, i)
  }

  /** The initial storage of every field, at every depth, is within bounds. */
  predicate Sane(d: Descriptor)
    decreases d
  {
    DistinctTags(d) && InBounds(d, DefaultSlots(d)) && forall i | 0 <= i < |d.fields| :: SaneField(d.fields[i])
  }

  predicate SaneField(f: Field)
    decreases f
  {
    ValueInBounds(f, DefaultValue(f)) && (f.ptr.Sub? ==> Sane(f.ptr.desc))
  }

  // ----- Numbers -----

  lemma {:induction false} FromLittleEndianBound(b: Bytes)
    ensures FromLittleEndian(b) < Pow2(8 * |b|)
  {
    if b != [] {
      FromLittleEndianBound(b[1..]);
      PowStep(8 * |b| - 8);
    }
  }

  lemma PowStep(k: nat)
    ensures Pow2(k + 8) == 0x100 * Pow2(k)
  {
    assert Pow2(k + 8) == 2 * Pow2(k + 7) == 4 * Pow2(k + 6) == 8 * Pow2(k + 5) == 0x10 * Pow2(k + 4);
    assert Pow2(k + 4) == 2 * Pow2(k + 3) == 4 * Pow2(k + 2) == 8 * Pow2(k + 1) == 0x10 * Pow2(k);
  }

  // ----- Values -----

  lemma ScalarInBounds(f: Field, base: Value, s: Bytes)
    requires f.ltype != Submessage && DecValue(f, base, s).Some?
    ensures ValueInBounds(f, DecValue(f, base, s).value.v)
  {
    hide DecVarint, DecVarint32, FromLittleEndian, UnZigZag, Word64, SignedOf, Pow2;
    Pow2Values();
    if f.ltype == Fixed32 {
      FromLittleEndianBound(s[..4]);
    } else if f.ltype == Fixed64 {
      FromLittleEndianBound(s[..8]);
    }
  }

  lemma {:induction false} DecodedValueInBounds(f: Field, base: Value, s: Bytes)
    requires SaneField(f) && ValueInBounds(f, base) && DecValue(f, base, s).Some?
    ensures ValueInBounds(f, DecValue(f, base, s).value.v)
    decreases f, 0
  {
    hide DecMessage, SplitLength, InBounds, Sane;
    if f.ltype == Submessage {
      var split := SplitLength(s).value;
      SaneStart(f.ptr.desc);
      var start := if f.htype == Repeated then DefaultSlots(f.ptr.desc) else base.slots;
      DecodedInBounds(f.ptr.desc, start, split.inner);
    } else {
      ScalarInBounds(f, base, s);
    }
  }

  lemma SaneStart(d: Descriptor)
    requires Sane(d)
    ensures InBounds(d, DefaultSlots(d))
  {
  }

  lemma {:induction false} PackedInBounds(f: Field, items: seq<Value>, s: Bytes)
    requires Packable(f.ltype) && SlotInBounds(f, Many(items)) && f.htype == Repeated
    requires DecPacked(f, items, s).Some?
    ensures SlotInBounds(f, Many(DecPacked(f, items, s).value.0))
    decreases |s|
  {
    hide DecValue, DefaultValue, ValueInBounds;
    if s != [] && |items| < f.arraySize {
      var read := DecValue(f, DefaultValue(f), s).value;
      ScalarInBounds(f, DefaultValue(f), s);
      PackedInBounds(f, items + [read.v], read.rest);
    }
  }

  // ----- Fields -----

  lemma {:induction false} FieldInBounds(f: Field, slot: Slot, wireType: nat, s: Bytes)
    requires SaneField(f) && SlotInBounds(f, slot) && DecField(f, slot, wireType, s).Some?
    ensures SlotInBounds(f, DecField(f, slot, wireType, s).value.slot)
    decreases f, 1
  {
    hide DecValue, DecPacked, DefaultValue, ValueInBounds, SplitLength;
    match f.htype
    case Required => DecodedValueInBounds(f, slot.v, s);
    case Optional =>
      if f.hasSize {
        DecodedValueInBounds(f, if slot.o.Some? then slot.o.value else DefaultValue(f), s);
      } else {
        DecodedValueInBounds(f, slot.v, s);
      }
    case Repeated =>
      if wireType == WT_STRING && Packable(f.ltype) {
        PackedInBounds(f, slot.items, SplitLength(s).value.inner);
      } else {
        DecodedValueInBounds(f, DefaultValue(f), s);
      }
    case Oneof => DecodedValueInBounds(f, DefaultValue(f), s);
  }

  /** Storing within bounds into the slot of one field leaves the others within theirs. */
  lemma StoreInBounds(d: Descriptor, slots: seq<Slot>, i: nat, slot: Slot)
    requires DistinctTags(d) && InBounds(d, slots) && i < |d.fields| && SlotInBounds(d.fields[i], slot)
    requires SlotOf(d, i) < |slots|
    requires d.fields[i].htype == Oneof ==> slot.Union? && slot.sel.Some? && slot.sel.value.tag == d.fields[i].tag
    ensures InBounds(d, slots[SlotOf(d, i) := slot])
  {
    hide ValueInBounds, SlotOf, SlotCount;
    var next := slots[SlotOf(d, i) := slot];
    forall j | 0 <= j < |d.fields|
      ensures SlotAtInBounds(d, next, j)
    {
      assert SlotAtInBounds(d, slots, j);
      if SlotOf(d, j) == SlotOf(d, i) && j != i {
        SharedSlot(d, if j < i then j else i, if j < i then i else j);
      }
    }
  }

  lemma StartedInBounds(d: Descriptor, st: Progress, i: nat)
    requires DistinctTags(d) && InBounds(d, st.slots) && i < |d.fields| && StartFixed(d, st, i).Some?
    ensures InBounds(d, StartFixed(d, st, i).value.slots)
  {
    hide ValueInBounds, SlotOf, SlotCount, FixedFull;
    SlotIsInBounds(d, st.slots, i);
    if FixedCount(d.fields[i]) && st.fixed != Some(i) {
      StoreInBounds(d, st.slots, i, Many([]));
    }
  }

  lemma MemberIsSelected(f: Field, slot: Slot, wireType: nat, s: Bytes)
    requires f.htype == Oneof && DecField(f, slot, wireType, s).Some?
    ensures var got := DecField(f, slot, wireType, s).value.slot;
      got.Union? && got.sel.Some? && got.sel.value.tag == f.tag
  {
    hide DecValue, DefaultValue;
  }

  lemma {:induction false} OccurrenceInBounds(d: Descriptor, st: Progress, i: nat, wireType: nat, s: Bytes)
    requires Sane(d) && InBounds(d, st.slots) && i < |d.fields| && DecOccurrence(d, st, i, wireType, s).Some?
    ensures InBounds(d, DecOccurrence(d, st, i, wireType, s).value.0.slots)
    decreases d, 0
  {
    hide DecField, StartFixed, InBounds, SlotInBounds, SaneField, SlotOf;
    assert SaneField(d.fields[i]);
    StartedInBounds(d, st, i);
    var started := StartFixed(d, st, i).value;
    SlotIsInBounds(d, started.slots, i);
    FieldInBounds(d.fields[i], started.slots[SlotOf(d, i)], wireType, s);
    var got := DecField(d.fields[i], started.slots[SlotOf(d, i)], wireType, s).value.slot;
    if d.fields[i].htype == Oneof {
      MemberIsSelected(d.fields[i], started.slots[SlotOf(d, i)], wireType, s);
    }
    StoreInBounds(d, started.slots, i, got);
  }

  lemma SlotIsInBounds(d: Descriptor, slots: seq<Slot>, i: nat)
    requires InBounds(d, slots) && i < |d.fields|
    ensures SlotOf(d, i) < |slots| && SlotInBounds(d.fields[i], slots[SlotOf(d, i)])
  {
    hide SlotInBounds, SlotOf;
    assert SlotAtInBounds(d, slots, i);
  }

  // ----- Messages -----

  lemma {:induction false} RoundInBounds(d: Descriptor, st: Progress, pos: nat, s: Bytes)
    requires Sane(d) && InBounds(d, st.slots) && (d.fields == [] || pos < |d.fields|)
    requires RoundOf(d, st, pos, s).GoesOn?
    ensures InBounds(d, RoundOf(d, st, pos, s).next.slots)
    decreases d, 1
  {
    hide DecOccurrence, DecVarint32, FindFrom, SkipField, InBounds, Sane;
    var got := DecVarint32(s).value;
    if d.fields != [] {
      var found := FindFrom(d, pos, 0, got.value / 8);
      if found.Some? {
        OccurrenceInBounds(d, st, found.value, got.value % 8, got.rest);
      }
    }
  }

  lemma {:induction false} LoopInBounds(d: Descriptor, st: Progress, pos: nat, s: Bytes)
    requires Sane(d) && InBounds(d, st.slots) && (d.fields == [] || pos < |d.fields|) && DecLoop(d, st, pos, s).Some?
    ensures InBounds(d, DecLoop(d, st, pos, s).value.slots)
    decreases d, 2, |s|
  {
    hide RoundOf, InBounds, Sane;
    var r := RoundOf(d, st, pos, s);
    if r.GoesOn? {
      RoundInBounds(d, st, pos, s);
      LoopInBounds(d, r.next, r.at, r.rest);
    }
  }

  /** Whatever is decoded into storage that is within bounds leaves it within bounds. */
  lemma {:induction false} DecodedInBounds(d: Descriptor, slots: seq<Slot>, s: Bytes)
    requires Sane(d) && InBounds(d, slots) && DecMessage(d, slots, s).Some?
    ensures InBounds(d, DecMessage(d, slots, s).value)
    decreases d, 3
  {
    hide DecLoop, InBounds, Sane, Complete;
    LoopInBounds(d, Progress(slots, {}, None), 0, s);
  }

  /** So does whatever is decoded into fresh storage. */
  lemma DecodeStaysInBounds(d: Descriptor, s: Bytes)
    requires Sane(d) && Decode(d, s).Some?
    ensures InBounds(d, Decode(d, s).value)
  {
    hide DecMessage, InBounds;
    SaneStart(d);
    DecodedInBounds(d, DefaultSlots(d), s);
  }
}
