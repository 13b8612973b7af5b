/**
 What is left out is what is there anyway: where every array has a stored count, nothing but defaults is left out, so no
 message loses anything; and a message of defaults is written as nothing at all, unless some field has to be written.
 */
module PbDefaults {
  import opened Wrappers
  import opened PbVarint
  import opened PbModel
  import opened PbEncode
  import opened PbDecode
  import opened PbRoundTrip

  /** Every array in the tree has a stored count. */
  predicate Counted(d: Descriptor)
    decreases d
  {
    forall i | 0 <= i < |d.fields| :: CountedField(d.fields[i])
  }

  predicate CountedField(f: Field)
    decreases f
  {
    !FixedCount(f) && (f.ptr.Sub? ==> Counted(f.ptr.desc))
  }

  // ----- Nothing but defaults is left out -----

  /** A proto3 singular field that passes for zero holds its default. */
  lemma {:induction false} ZeroIsDefault(f: Field, v: Value)
    requires FieldOk(f) && CountedField(f) && ValueFits(f, v) && f.htype == Optional && !f.hasSize && IsZero(f, v)
    ensures v == DefaultValue(f)
    decreases f, 0
  {
    hide DefaultSlots, AllDefault, MessageFits, StringLength;
    if f.ltype == Submessage {
      AllDefaultsAre(f.ptr.desc, v.slots);
    } else if f.ltype == StringType {
      FullLength(v.chars, f.dataSize);
    } else if f.ltype == FixedLengthBytes {
      assert v.bytes == Zeros(f.dataSize);
    }
  }

  lemma {:induction false} LeftOutIsDefault(f: Field, slot: Slot)
    requires FieldOk(f) && CountedField(f) && SlotFits(f, slot) && IsDefault(f, slot)
    ensures slot == DefaultSlot(f)
    decreases f, 1
  {
    hide ValueFits, DefaultValue, IsZero;
    if f.htype == Optional && !f.hasSize {
      ZeroIsDefault(f, slot.v);
    }
  }

  lemma {:induction false} AllDefaultAt(d: Descriptor, slots: seq<Slot>, i: nat, j: nat)
    requires i <= j < |d.fields| && AllDefault(d, slots, i)
    ensures SlotOf(d, j) < |slots| && IsDefault(d.fields[j], slots[SlotOf(d, j)])
    decreases j - i
  {
    hide IsDefault, SlotOf;
    if i < j {
      AllDefaultAt(d, slots, i + 1, j);
    }
  }

  lemma {:induction false} AllDefaultsAre(d: Descriptor, slots: seq<Slot>)
    requires DescOk(d) && Counted(d) && MessageFits(d, slots) && AllDefault(d, slots, 0)
    ensures slots == DefaultSlots(d)
    decreases d, 2
  {
    hide DefaultSlots, DefaultSlot, IsDefault, SlotFits, SlotOf, AllDefault, CountedField, FieldOk;
    DefaultSize(d);
    forall k: nat | k < |slots|
      ensures slots[k] == DefaultSlots(d)[k]
    {
      var j := OwnerOf(d, k);
      AllDefaultAt(d, slots, 0, j);
      assert SlotFitsAt(d, slots, j) && FieldOk(d.fields[j]) && CountedField(d.fields[j]);
      LeftOutIsDefault(d.fields[j], slots[k]);
      DefaultAt(d, j);
    }
  }

  lemma DefaultSize(d: Descriptor)
    ensures |DefaultSlots(d)| == SlotCount(d)
  {
  }

  lemma OwnerOf(d: Descriptor, k: nat) returns (j: nat)
    requires k < SlotCount(d)
    ensures j < |d.fields| && SlotOf(d, j) == k
  {
    j := SlotOwner(d, k, |d.fields|);
  }

  // ----- So no message loses anything -----

  lemma {:induction false} ValueLosesNothing(f: Field, v: Value)
    requires FieldOk(f) && CountedField(f) && ValueFits(f, v)
    ensures ValueOk(f, v)
    decreases f, 0
  {
    hide MessageFits, MessageOk, ScalarOk;
    if f.ltype == Submessage {
      CountedLosesNothing(f.ptr.desc, v.slots);
    }
  }

  lemma {:induction false} SlotLosesNothing(f: Field, slot: Slot)
    requires FieldOk(f) && CountedField(f) && SlotFits(f, slot)
    ensures SlotOk(f, slot)
    decreases f, 1
  {
    hide ValueFits, ValueOk, DefaultSlot, IsDefault;
    match f.htype
    case Required => ValueLosesNothing(f, slot.v);
    case Optional =>
      if f.hasSize {
        if slot.o.Some? {
          ValueLosesNothing(f, slot.o.value);
        }
      } else {
        ValueLosesNothing(f, slot.v);
        if IsDefault(f, slot) {
          LeftOutIsDefault(f, slot);
        }
      }
    case Repeated =>
      forall k | 0 <= k < |slot.items|
        ensures ValueOk(f, slot.items[k])
      {
        ValueLosesNothing(f, slot.items[k]);
      }
    case Oneof =>
      if Selected(f, slot) {
        ValueLosesNothing(f, slot.sel.value.value);
      }
  }

  /** Where every array has a stored count, every message that can be stored comes back whole. */
  lemma {:induction false} CountedLosesNothing(d: Descriptor, slots: seq<Slot>)
    requires DescOk(d) && Counted(d) && MessageFits(d, slots)
    ensures MessageOk(d, slots)
    ensures |EncMessage(d, slots).bytes| < TWO_32 ==>
      EncMessage(d, slots).ok && Decode(d, EncMessage(d, slots).bytes) == Some(slots)
    decreases d, 2
  {
    hide SlotFits, SlotOk, SlotOf, CountedField, FieldOk, Decode, EncMessage;
    forall i | 0 <= i < |d.fields|
      ensures SlotAt(d, slots, i)
    {
      assert SlotFitsAt(d, slots, i) && FieldOk(d.fields[i]) && CountedField(d.fields[i]);
      SlotLosesNothing(d.fields[i], slots[SlotOf(d, i)]);
    }
    if |EncMessage(d, slots).bytes| < TWO_32 {
      SurvivesRoundTrip(d, slots);
    }
  }

  // ----- Defaults are written as nothing -----

  /** No field has to be written, be it initial or not. */
  predicate AllMayStayOut(d: Descriptor)
    decreases d
  {
    forall i | 0 <= i < |d.fields| :: MayStayOut(d.fields[i])
  }

  /** A proto3 singular submessage counts by its own fields; a byte string of fixed length is written unless empty. */
  predicate MayStayOut(f: Field)
    decreases f
  {
    && f.htype != Required
    && (f.htype == Optional && !f.hasSize ==>
          && (f.ptr.Sub? ==> AllMayStayOut(f.ptr.desc))
          && (f.ltype == FixedLengthBytes ==> f.dataSize == 0))
  }

  lemma {:induction false} InitialIsLeftOut(f: Field)
    requires FieldOk(f) && CountedField(f)
    ensures IsDefault(f, DefaultSlot(f)) <==> MayStayOut(f)
    decreases f, 1
  {
    hide AllDefault, DefaultSlots, Counted, AllMayStayOut, StringLength, DescOk;
    if f.htype == Optional && !f.hasSize {
      if f.ltype == Submessage {
        InitialAreLeftOut(f.ptr.desc);
      } else if f.ltype == StringType {
        EmptyLength(f.dataSize);
      }
    }
  }

  lemma EmptyLength(size: nat)
    ensures StringLength([], size) == 0
  {
  }

  lemma {:induction false} InitialAreLeftOut(d: Descriptor)
    requires DescOk(d) && Counted(d)
    ensures AllDefault(d, DefaultSlots(d), 0) <==> AllMayStayOut(d)
    decreases d, 3
  {
    hide IsDefault, DefaultSlot, DefaultSlots, MayStayOut, CountedField, FieldOk, SlotOf, AllDefault;
    if AllDefault(d, DefaultSlots(d), 0) {
      forall i | 0 <= i < |d.fields|
        ensures MayStayOut(d.fields[i])
      {
        assert FieldOk(d.fields[i]) && CountedField(d.fields[i]);
        AllDefaultAt(d, DefaultSlots(d), 0, i);
        DefaultAt(d, i);
        InitialIsLeftOut(d.fields[i]);
      }
    }
    if AllMayStayOut(d) {
      FromHereLeftOut(d, 0);
    }
  }

  lemma {:induction false} FromHereLeftOut(d: Descriptor, i: nat)
    requires DescOk(d) && Counted(d) && AllMayStayOut(d) && i <= |d.fields|
    ensures AllDefault(d, DefaultSlots(d), i)
    decreases d, 2, |d.fields| - i
  {
    hide IsDefault, DefaultSlot, DefaultSlots, MayStayOut, CountedField, FieldOk, SlotOf;
    if i < |d.fields| {
      assert FieldOk(d.fields[i]) && CountedField(d.fields[i]) && MayStayOut(d.fields[i]);
      DefaultAt(d, i);
      InitialIsLeftOut(d.fields[i]);
      FromHereLeftOut(d, i + 1);
    }
  }

  lemma InitialField(f: Field)
    requires FieldOk(f) && CountedField(f)
    ensures EncField(f, DefaultSlot(f)) == EMPTY <==> MayStayOut(f)
  {
    hide DefaultValue, IsDefault, EncValue, EncTag, MayStayOut;
    InitialIsLeftOut(f);
    TagIsWritten(f, DefaultValue(f));
    RequiredIsWritten(f);
  }

  lemma TagIsWritten(f: Field, v: Value)
    ensures EncOne(f, v) != EMPTY
  {
    hide EncValue, EncVarint;
  }

  lemma RequiredIsWritten(f: Field)
    ensures f.htype == Required ==> !MayStayOut(f)
    ensures f.htype != Required && (f.htype != Optional || f.hasSize) ==> MayStayOut(f)
  {
  }

  /** An initial message is written as nothing exactly if no field has to be written. */
  lemma InitialIsEmpty(d: Descriptor)
    requires DescOk(d) && Counted(d)
    ensures EncMessage(d, DefaultSlots(d)) == EMPTY <==> AllMayStayOut(d)
  {
    hide EncField, DefaultSlots, MayStayOut, FieldOk, CountedField, SlotOf;
    InitialFrom(d, 0);
    if AllMayStayOut(d) {
      assert forall j | 0 <= j < |d.fields| :: MayStayOut(d.fields[j]);
    }
  }

  lemma {:induction false} InitialFrom(d: Descriptor, i: nat)
    requires DescOk(d) && Counted(d) && i <= |d.fields|
    ensures EncFields(d, DefaultSlots(d), i) == EMPTY <==> forall j | i <= j < |d.fields| :: MayStayOut(d.fields[j])
    decreases |d.fields| - i
  {
    hide EncField, DefaultSlots, DefaultSlot, MayStayOut, FieldOk, CountedField, SlotOf;
    if i < |d.fields| {
      assert FieldOk(d.fields[i]) && CountedField(d.fields[i]);
      DefaultAt(d, i);
      InitialField(d.fields[i]);
      InitialFrom(d, i + 1);
      BothEmpty(EncField(d.fields[i], DefaultSlot(d.fields[i])), EncFields(d, DefaultSlots(d), i + 1));
    }
  }

  lemma BothEmpty(a: Enc, b: Enc)
    ensures Then(a, b) == EMPTY <==> a == EMPTY && b == EMPTY
  {
  }
}
