/**
 What nanopb leaves out. A proto3 singular field is not written when it passes for zero. For an array without a stored
 count the encoder takes the first word of the array for the count, so a submessage can pass for empty that is not.
 What comes back of a message is then the message with these fields at their defaults, and nothing else is lost.
 */
module PbLoss {
  import opened Wrappers
  import opened PbVarint
  import opened PbModel
  import opened PbEncode
  import opened PbDecode
  import opened PbRoundTrip

  // ----- What is kept -----

  function KeptValue(f: Field, v: Value): Value
    decreases f, 0
  {
    if f.ltype == Submessage && v.MessageV? && f.ptr.Sub? then
      MessageV(KeptTo(f.ptr.desc, v.slots, |f.ptr.desc.fields|))
    else v
  }

  function KeptItems(f: Field, items: seq<Value>): (r: seq<Value>)
    ensures |r| == |items| && forall j | 0 <= j < |items| :: r[j] == KeptValue(f, items[j])
    decreases f, 1
  {
    seq(|items|, j requires 0 <= j < |items| => KeptValue(f, items[j]))
  }

  function KeptSlot(f: Field, slot: Slot): Slot
    decreases f, 2
  {
    match f.htype
    case Required => if slot.Single? then Single(KeptValue(f, slot.v)) else slot
    case Optional =>
      if f.hasSize then if slot.Opt? && slot.o.Some? then Opt(Some(KeptValue(f, slot.o.value))) else slot
      else if IsDefault(f, slot) then DefaultSlot(f)
      else if slot.Single? then Single(KeptValue(f, slot.v))
      else slot
    case Repeated => if slot.Many? then Many(KeptItems(f, slot.items)) else slot
    case Oneof =>
      if Selected(f, slot) then Union(Some(Member(f.tag, KeptValue(f, slot.sel.value.value)))) else slot
  }

  /** The message with what is kept of the first `n` fields. */
  function KeptTo(d: Descriptor, slots: seq<Slot>, n: nat): (r: seq<Slot>)
    requires n <= |d.fields|
    ensures |r| == |slots|
    decreases d, n
  {
    if n == 0 then slots
    else
      var front, k := KeptTo(d, slots, n - 1), SlotOf(d, n - 1);
      if k < |front| then front[k := KeptSlot(d.fields[n - 1], front[k])] else front
  }

  function Kept(d: Descriptor, slots: seq<Slot>): seq<Slot> { KeptTo(d, slots, |d.fields|) }

  /** Field `j` is the one that decides about its slot: a member of a union only when it is selected. */
  predicate Acts(d: Descriptor, slots: seq<Slot>, j: nat, k: nat)
    requires j < |d.fields| && k < |slots|
  {
    SlotOf(d, j) == k && (d.fields[j].htype == Oneof ==> Selected(d.fields[j], slots[k]))
  }

  lemma OneActs(d: Descriptor, slots: seq<Slot>, i: nat, j: nat, k: nat)
    requires DistinctTags(d) && i < j < |d.fields| && k < |slots| && Acts(d, slots, i, k)
    ensures !Acts(d, slots, j, k)
  {
    if SlotOf(d, j) == k {
      SharedSlot(d, i, j);
    }
  }

  lemma NotSelectedStays(f: Field, slot: Slot)
    requires f.htype == Oneof && !Selected(f, slot)
    ensures KeptSlot(f, slot) == slot
  {
  }

  lemma {:induction false} UntouchedStays(d: Descriptor, slots: seq<Slot>, n: nat, k: nat)
    requires n <= |d.fields| && k < |slots| && forall j: nat | j < n :: !Acts(d, slots, j, k)
    ensures KeptTo(d, slots, n)[k] == slots[k]
    decreases n
  {
    hide KeptSlot, SlotOf, Selected;
    if n > 0 {
      UntouchedStays(d, slots, n - 1, k);
      if SlotOf(d, n - 1) == k {
        assert !Acts(d, slots, n - 1, k);
        NotSelectedStays(d.fields[n - 1], slots[k]);
      }
    }
  }

  lemma {:induction false} ActorKeeps(d: Descriptor, slots: seq<Slot>, n: nat, j: nat, k: nat)
    requires DistinctTags(d) && j < n <= |d.fields| && k < |slots| && Acts(d, slots, j, k)
    ensures KeptTo(d, slots, n)[k] == KeptSlot(d.fields[j], slots[k])
    decreases n
  {
    hide KeptValue, KeptItems, SlotOf, DefaultSlot, IsDefault;
    var i := n - 1;
    if i == j {
      forall m: nat | m < i
        ensures !Acts(d, slots, m, k)
      {
        if Acts(d, slots, m, k) {
          OneActs(d, slots, m, j, k);
        }
      }
      UntouchedStays(d, slots, i, k);
    } else {
      ActorKeeps(d, slots, i, j, k);
      if SlotOf(d, i) == k {
        SharedSlot(d, j, i);
        NotSelectedStays(d.fields[i], KeptSlot(d.fields[j], slots[k]));
      }
    }
  }

  // ----- What passes for zero starts with zero -----

  lemma {:induction false} DefaultStartsWithZero(f: Field, slot: Slot)
    requires IsDefault(f, slot)
    ensures SlotLeadZero(f, slot)
    decreases f
  {
    if slot.Single? && f.ltype == Submessage && slot.v.MessageV? && f.ptr.Sub? {
      StructStartsWithZero(f.ptr.desc, slot.v.slots);
    }
  }

  lemma {:induction false} StructStartsWithZero(d: Descriptor, slots: seq<Slot>)
    requires AllDefault(d, slots, 0)
    ensures StructLeadZero(d, slots)
    decreases d
  {
    if d.fields != [] {
      DefaultStartsWithZero(d.fields[0], slots[0]);
    }
  }

  /** What a field starts from passes for zero, if anything does. */
  lemma {:induction false} StartPassesForZero(f: Field, slot: Slot)
    requires FieldOk(f) && IsDefault(f, slot)
    ensures IsDefault(f, DefaultSlot(f))
    decreases f
  {
    if f.htype == Optional && !f.hasSize && f.ltype == Submessage {
      AllStartPassForZero(f.ptr.desc, slot.v.slots, 0);
    }
  }

  lemma {:induction false} AllStartPassForZero(d: Descriptor, slots: seq<Slot>, i: nat)
    requires DescOk(d) && i <= |d.fields| && AllDefault(d, slots, i)
    ensures AllDefault(d, DefaultSlots(d), i)
    decreases d, |d.fields| - i
  {
    hide IsDefault, DefaultSlot, DefaultSlots, FieldOk;
    if i < |d.fields| {
      DefaultAt(d, i);
      StartPassesForZero(d.fields[i], slots[SlotOf(d, i)]);
      AllStartPassForZero(d, slots, i + 1);
    }
  }

  // ----- What is kept is encoded alike -----

  /** To the encoder `a` and `b` look alike, as values of the field. */
  ghost predicate SameValue(f: Field, a: Value, b: Value) {
    && EncValue(f, a) == EncValue(f, b) && EncOne(f, a) == EncOne(f, b) && IsZero(f, a) == IsZero(f, b)
    && ItemLeadZero(f, a, BYTES_HEADER) == ItemLeadZero(f, b, BYTES_HEADER)
    && forall m: int :: ItemLeadZero(f, a, m) == ItemLeadZero(f, b, m)
  }

  predicate SameSlot(f: Field, a: Slot, b: Slot) {
    EncField(f, a) == EncField(f, b) && IsDefault(f, a) == IsDefault(f, b) && SlotLeadZero(f, a) == SlotLeadZero(f, b)
  }

  lemma {:induction false} ValueKept(f: Field, v: Value)
    requires FieldOk(f) && ValueFits(f, v)
    ensures SameValue(f, KeptValue(f, v), v) && ValueOk(f, KeptValue(f, v))
    decreases f, 0
  {
    hide EncVarint, LittleEndian, ZigZag, EncWord, StringLength, EncString, EncFields, KeptTo, AllDefault,
      StructLeadZero, ScalarOk, MessageFits, MessageOk, DescOk;
    if f.ltype == Submessage {
      MessageKept(f.ptr.desc, v.slots);
    }
  }

  lemma {:induction false} ItemsKept(f: Field, items: seq<Value>, i: nat)
    requires FieldOk(f) && i <= |items| && forall j | 0 <= j < |items| :: ValueFits(f, items[j])
    ensures EncItems(f, KeptItems(f, items), i) == EncItems(f, items, i)
    ensures EncTagged(f, KeptItems(f, items), i) == EncTagged(f, items, i)
    decreases f, 1, |items| - i
  {
    hide EncValue, KeptValue, FieldOk, ValueFits, ValueOk, IsZero, ItemLeadZero, EncTag, Then;
    if i < |items| {
      ValueKept(f, items[i]);
      ItemsKept(f, items, i + 1);
    }
  }

  lemma {:induction false} ArrayKept(f: Field, items: seq<Value>)
    requires FieldOk(f) && forall j | 0 <= j < |items| :: ValueFits(f, items[j])
    ensures EncArray(f, KeptItems(f, items)) == EncArray(f, items)
    ensures ArrayLeadZero(f, KeptItems(f, items)) == ArrayLeadZero(f, items)
    ensures forall j | 0 <= j < |items| :: ValueOk(f, KeptItems(f, items)[j])
    decreases f, 2
  {
    hide EncValue, KeptValue, FieldOk, ValueFits, ValueOk, IsZero, ItemLeadZero, EncTag, EncItems, EncTagged, InWord;
    ItemsKept(f, items, 0);
    forall j: nat | j < |items|
      ensures SameValue(f, KeptItems(f, items)[j], items[j]) && ValueOk(f, KeptItems(f, items)[j])
    {
      ValueKept(f, items[j]);
    }
  }

  lemma {:induction false} SlotKept(f: Field, slot: Slot)
    requires FieldOk(f) && SlotFits(f, slot)
    ensures SameSlot(f, KeptSlot(f, slot), slot) && SlotOk(f, KeptSlot(f, slot))
    decreases f, 3
  {
    hide EncValue, EncOne, KeptValue, KeptItems, FieldOk, ValueFits, ValueOk, ItemLeadZero, EncArray, ArrayLeadZero,
      IsZero, DefaultValue;
    match f.htype
    case Required => ValueKept(f, slot.v);
    case Optional =>
      if f.hasSize {
        if slot.o.Some? {
          ValueKept(f, slot.o.value);
        }
      } else if IsDefault(f, slot) {
        StartPassesForZero(f, slot);
        DefaultStartsWithZero(f, slot);
        DefaultStartsWithZero(f, DefaultSlot(f));
      } else {
        ValueKept(f, slot.v);
      }
    case Repeated => ArrayKept(f, slot.items);
    case Oneof =>
      if Selected(f, slot) {
        ValueKept(f, slot.sel.value.value);
      }
  }

  /** What is kept in the slot of field `i` looks to the encoder as what is stored there. */
  lemma {:induction false} KeptFor(d: Descriptor, slots: seq<Slot>, i: nat)
    requires DescOk(d) && MessageFits(d, slots) && i < |d.fields|
    ensures SlotOf(d, i) < |slots|
    ensures var k := SlotOf(d, i);
      SameSlot(d.fields[i], Kept(d, slots)[k], slots[k]) && SlotOk(d.fields[i], Kept(d, slots)[k])
    ensures var k := SlotOf(d, i);
      (Kept(d, slots)[k].Union? <==> slots[k].Union?) &&
      (slots[k].Union? ==>
        && (Kept(d, slots)[k].sel.Some? <==> slots[k].sel.Some?)
        && (slots[k].sel.Some? ==> Kept(d, slots)[k].sel.value.tag == slots[k].sel.value.tag))
    decreases d, 1
  {
    hide SameSlot, SlotOk, KeptTo, SlotOf, SlotFits, FieldOk, DefaultSlot, IsDefault, KeptValue, KeptItems;
    assert SlotFitsAt(d, slots, i);
    var k, f := SlotOf(d, i), d.fields[i];
    if Acts(d, slots, i, k) {
      ActorKeeps(d, slots, |d.fields|, i, k);
      SlotKept(f, slots[k]);
      UnionStays(f, slots[k]);
    } else if j: nat :| j < |d.fields| && Acts(d, slots, j, k) {
      ActorKeeps(d, slots, |d.fields|, j, k);
      SharedSlot(d, if j < i then j else i, if j < i then i else j);
      UnionStays(d.fields[j], slots[k]);
      OthersUnion(f, d.fields[j], slots[k]);
    } else {
      UntouchedStays(d, slots, |d.fields|, k);
      OthersSlot(f, slots[k]);
    }
  }

  lemma UnionStays(f: Field, slot: Slot)
    requires SlotFits(f, slot) || (f.htype == Oneof && slot.Union?)
    ensures KeptSlot(f, slot).Union? <==> slot.Union?
    ensures slot.Union? ==>
      && (KeptSlot(f, slot).sel.Some? <==> slot.sel.Some?)
      && (slot.sel.Some? ==> KeptSlot(f, slot).sel.value.tag == slot.sel.value.tag)
  {
  }

  /** A member of a union that is not selected sees of it only that something else is. */
  lemma OthersUnion(f: Field, g: Field, slot: Slot)
    requires f.htype == Oneof && g.htype == Oneof && f.tag != g.tag && Selected(g, slot)
    ensures SameSlot(f, KeptSlot(g, slot), slot) && SlotOk(f, KeptSlot(g, slot))
  {
  }

  lemma OthersSlot(f: Field, slot: Slot)
    requires f.htype == Oneof && !Selected(f, slot) && SlotFits(f, slot)
    ensures SameSlot(f, slot, slot) && SlotOk(f, slot)
  {
  }

  lemma {:induction false} FieldsKept(d: Descriptor, slots: seq<Slot>, i: nat)
    requires DescOk(d) && MessageFits(d, slots) && i <= |d.fields|
    ensures EncFields(d, Kept(d, slots), i) == EncFields(d, slots, i)
    ensures AllDefault(d, Kept(d, slots), i) == AllDefault(d, slots, i)
    decreases d, 2, |d.fields| - i
  {
    hide EncField, IsDefault, SlotLeadZero, SlotOk, KeptTo, MessageFits, DescOk, Then;
    if i < |d.fields| {
      KeptFor(d, slots, i);
      FieldsKept(d, slots, i + 1);
    }
  }

  lemma {:induction false} MessageKept(d: Descriptor, slots: seq<Slot>)
    requires DescOk(d) && MessageFits(d, slots)
    ensures EncMessage(d, Kept(d, slots)) == EncMessage(d, slots)
    ensures AllDefault(d, Kept(d, slots), 0) == AllDefault(d, slots, 0)
    ensures StructLeadZero(d, Kept(d, slots)) == StructLeadZero(d, slots)
    ensures MessageOk(d, Kept(d, slots))
    decreases d, 3
  {
    hide EncFields, AllDefault, SlotLeadZero, EncField, IsDefault, SlotOk, SlotFits, KeptTo, DescOk;
    FieldsKept(d, slots, 0);
    if d.fields != [] {
      KeptFor(d, slots, 0);
    }
    forall i: nat | i < |d.fields|
      ensures SlotAt(d, Kept(d, slots), i)
    {
      KeptFor(d, slots, i);
    }
    forall k: nat | k < |slots| && Kept(d, slots)[k].Union? && Kept(d, slots)[k].sel.Some?
      ensures Selects(d, k, Kept(d, slots)[k].sel.value.tag)
    {
      var i := SlotOwner(d, k, |d.fields|);
      KeptFor(d, slots, i);
      assert SlotAt(d, Kept(d, slots), i);
      assert SlotFitsAt(d, slots, i);
    }
  }

  // ----- The round trip -----

  /**
   For every message that can be stored: encoding succeeds, decoding gives back what is kept of it, and that is the
   message itself exactly when each of its proto3 singular fields that passes for zero is what decoding starts from.
   */
  lemma RoundTrip(d: Descriptor, slots: seq<Slot>)
    requires DescOk(d) && MessageFits(d, slots) && |EncMessage(d, slots).bytes| < TWO_32
    ensures EncMessage(d, slots).ok && Decode(d, EncMessage(d, slots).bytes) == Some(Kept(d, slots))
    ensures Decode(d, EncMessage(d, slots).bytes) == Some(slots) <==> MessageOk(d, slots)
  {
    hide EncMessage, Decode, MessageFits, MessageOk, DescOk, Kept;
    MessageKept(d, slots);
    SurvivesRoundTrip(d, Kept(d, slots));
    if MessageOk(d, slots) {
      SurvivesRoundTrip(d, slots);
    }
  }

  // ----- A message that does not come back -----

  /** A submessage with an array of two 32-bit numbers and no count. */
  const PAIR := Descriptor([Field(1, Varint, Repeated, false, false, 0, 0, 4, 2, Null)])

  /** A message with such a submessage as a proto3 singular field. */
  const HOLDER := Descriptor([Field(1, Submessage, Optional, false, false, 0, 0, 8, 1, Sub(PAIR))])

  function Holding(a: int, b: int): seq<Slot> { [Single(MessageV([Many([IntV(a), IntV(b)])]))] }

  lemma PairFits(a: int, b: int)
    requires SignedFits(a, 4) && SignedFits(b, 4)
    ensures DescOk(PAIR) && MessageFits(PAIR, [Many([IntV(a), IntV(b)])]) && MessageOk(PAIR, [Many([IntV(a), IntV(b)])])
    ensures AllDefault(PAIR, [Many([IntV(a), IntV(b)])], 0) <==> a == 0
  {
    var f, items := PAIR.fields[0], [IntV(a), IntV(b)];
    assert SlotOf(PAIR, 0) == 0 && SlotCount(PAIR) == 1;
    assert InWord(0, 4) && !InWord(1, 4);
    assert a % TWO_32 == 0 <==> a == 0;
    assert ArrayLeadZero(f, items) <==> a == 0;
    assert SlotFitsAt(PAIR, [Many(items)], 0) && SlotAt(PAIR, [Many(items)], 0);
  }

  lemma LeftOut(slots: seq<Slot>)
    requires |slots| == 1 && slots[0].Single? && IsDefault(HOLDER.fields[0], slots[0])
    ensures EncMessage(HOLDER, slots) == EMPTY && Decode(HOLDER, []) == Some(DefaultSlots(HOLDER))
  {
    hide IsDefault, EncOne, DefaultSlots;
    assert EncField(HOLDER.fields[0], slots[0]) == EMPTY;
    assert EncFields(HOLDER, slots, 1) == EMPTY;
    assert SlotOf(HOLDER, 0) == 0 && RequiredBefore(HOLDER, 1) == RequiredBefore(HOLDER, 0) == 0;
    var start := Progress(DefaultSlots(HOLDER), {}, None);
    assert DecLoop(HOLDER, start, 0, []) == Some(start);
    assert |HOLDER.fields| == 1 && Complete(HOLDER, start);
  }

  /** The pair is left out exactly when its first number is zero: the second is then lost, whatever it is. */
  lemma FirstNumberDecides(a: int, b: int)
    requires SignedFits(a, 4) && SignedFits(b, 4)
    ensures DescOk(HOLDER) && MessageFits(HOLDER, Holding(a, b))
    ensures MessageOk(HOLDER, Holding(a, b)) <==> a != 0
    ensures a == 0 ==> EncMessage(HOLDER, Holding(a, b)) == EMPTY && Decode(HOLDER, []) == Some(DefaultSlots(HOLDER))
  {
    hide EncVarint, EncWord, AllDefault, EncFields;
    PairFits(a, b);
    var slots := Holding(a, b);
    assert SlotOf(HOLDER, 0) == 0 && SlotCount(HOLDER) == 1;
    assert SlotFitsAt(HOLDER, slots, 0);
    assert IsDefault(HOLDER.fields[0], slots[0]) <==> a == 0;
    DefaultAt(PAIR, 0);
    assert DefaultSlot(HOLDER.fields[0]).v.slots[0] == Many([]);
    assert SlotAt(HOLDER, slots, 0) <==> a != 0;
    if a == 0 {
      LeftOut(slots);
    }
  }
}
