/**
 Messages and descriptors that have grown apart (Protocol Buffers Language guide, section "Updating A Message Type"):
 whatever the encoder writes for a field is a well-formed field to a decoder that does not know it, so a descriptor
 that lacks fields, at any depth, reads those it has.
 */
module PbEvolution {
  import opened Wrappers
  import opened PbVarint
  import opened PbModel
  import opened PbEncode
  import opened PbDecode
  import opened PbRoundTrip
  import opened PbUnknown

  /** No field of the descriptor has the tag. */
  predicate Lacks(d: Descriptor, tag: nat) {
    forall i | 0 <= i < |d.fields| :: d.fields[i].tag != tag
  }

  // ----- What is written is well formed -----

  /** A varint ends with its first byte that has the top bit clear. */
  lemma {:induction false} VarintEndsExactly(v: nat)
    ensures EndsExactly(EncVarint(v))
  {
    var b := EncVarint(v);
    if v >= 0x80 {
      VarintEndsExactly(v / 0x80);
      var rest := EncVarint(v / 0x80);
      assert b[1..] == rest && b[|b| - 1] == rest[|rest| - 1];
      forall k | 0 <= k < |b| - 1
        ensures b[k] >= 0x80
      {
        assert k > 0 ==> b[k] == rest[k - 1];
      }
    }
  }

  /** A value is written as its wire type says. */
  lemma ValueIsWellFormed(f: Field, v: Value)
    requires EncValue(f, v).ok && |EncValue(f, v).bytes| < TWO_32
    ensures WellFormedValue(WireType(f.ltype), EncValue(f, v).bytes)
  {
    hide EncVarint, DecVarint32, EncString, EndsExactly, ZigZag, EncFields, StringLength;
    match f.ltype
    case Varint => VarintEndsExactly(v.n % TWO_64);
    case UVarint => VarintEndsExactly(v.n % TWO_64);
    case SVarint => VarintEndsExactly(ZigZag(v.n));
    case Fixed32 =>
    case Fixed64 =>
    case BytesType => StringIsWellFormed(v.data);
    case StringType => StringIsWellFormed(v.chars[..StringLength(v.chars, f.dataSize)]);
    case FixedLengthBytes => StringIsWellFormed(v.bytes);
    case Submessage => StringIsWellFormed(EncFields(f.ptr.desc, v.slots, 0).bytes);
  }

  lemma StringIsWellFormed(b: Bytes)
    requires |EncString(b)| < TWO_32
    ensures WellFormedValue(WT_STRING, EncString(b))
  {
    hide EncVarint, DecVarint32;
    LengthRoundTrip(b, []);
    assert EncString(b) + [] == EncString(b) && b + [] == b;
  }

  /** Behind its tag it is a field that any descriptor without the tag skips. */
  lemma TaggedIsUnknown(d: Descriptor, tag: nat, wireType: nat, p: Bytes)
    requires TagOk(tag) && Lacks(d, tag) && wireType < 8 && WellFormedValue(wireType, p)
    ensures UnknownField(d, EncTag(wireType, tag) + p)
  {
    hide EncVarint, DecVarint32, WellFormedValue;
    var word := tag * 8 + wireType;
    assert word % TWO_64 == word && word / 8 == tag && word % 8 == wireType;
    Varint32RoundTrip(word, p);
  }

  /** One value with its tag. */
  lemma OneIsUnknown(d: Descriptor, f: Field, v: Value)
    requires TagOk(f.tag) && Lacks(d, f.tag) && EncOne(f, v).ok && |EncOne(f, v).bytes| < TWO_32
    ensures UnknownField(d, EncOne(f, v).bytes)
  {
    hide EncValue, WellFormedValue, UnknownField, EncTag, Lacks;
    ValueIsWellFormed(f, v);
    TaggedIsUnknown(d, f.tag, WireType(f.ltype), EncValue(f, v).bytes);
  }

  /** A packed array. */
  lemma PackedIsUnknown(d: Descriptor, f: Field, items: seq<Value>)
    requires TagOk(f.tag) && Lacks(d, f.tag) && Packable(f.ltype) && items != []
    requires EncArray(f, items).ok && |EncArray(f, items).bytes| < TWO_32
    ensures UnknownField(d, EncArray(f, items).bytes)
  {
    hide EncItems, WellFormedValue, UnknownField, EncTag, Lacks, EncString;
    StringIsWellFormed(EncItems(f, items, 0).bytes);
    TaggedIsUnknown(d, f.tag, WT_STRING, EncString(EncItems(f, items, 0).bytes));
  }

  // ----- Skipping what is not known -----

  /** An unknown field is skipped, whatever follows it. */
  lemma UnknownIsSkipped(d: Descriptor, st: Progress, pos: nat, u: Bytes, tail: Bytes)
    requires (d.fields == [] || pos < |d.fields|) && UnknownField(d, u)
    ensures DecLoop(d, st, pos, u + tail) == DecLoop(d, st, pos, tail)
  {
    hide RoundOf, UnknownField;
    UnknownRound(d, st, pos, u, tail);
  }

  /** The items of an array that is not packed are skipped one by one. */
  lemma {:induction false} TaggedAreSkipped(d: Descriptor, f: Field, items: seq<Value>, k: nat, st: Progress, pos: nat,
      tail: Bytes)
    requires TagOk(f.tag) && Lacks(d, f.tag) && (d.fields == [] || pos < |d.fields|) && k <= |items|
    requires EncTagged(f, items, k).ok && |EncTagged(f, items, k).bytes| < TWO_32
    ensures DecLoop(d, st, pos, EncTagged(f, items, k).bytes + tail) == DecLoop(d, st, pos, tail)
    decreases |items| - k
  {
    hide DecLoop, EncValue, UnknownField, EncTag, Lacks;
    if k == |items| {
      assert [] + tail == tail;
    } else {
      var rest := EncTagged(f, items, k + 1).bytes;
      assert EncTagged(f, items, k).bytes == EncOne(f, items[k]).bytes + rest;
      OneIsUnknown(d, f, items[k]);
      UnknownIsSkipped(d, st, pos, EncOne(f, items[k]).bytes, rest + tail);
      assert EncTagged(f, items, k).bytes + tail == EncOne(f, items[k]).bytes + (rest + tail);
      TaggedAreSkipped(d, f, items, k + 1, st, pos, tail);
    }
  }

  /** Whatever the encoder writes for a field, a decoder without the field skips. */
  lemma FieldIsSkipped(d: Descriptor, f: Field, slot: Slot, st: Progress, pos: nat, tail: Bytes)
    requires TagOk(f.tag) && Lacks(d, f.tag) && (d.fields == [] || pos < |d.fields|)
    requires EncField(f, slot).ok && |EncField(f, slot).bytes| < TWO_32
    ensures DecLoop(d, st, pos, EncField(f, slot).bytes + tail) == DecLoop(d, st, pos, tail)
  {
    hide DecLoop, EncOne, EncArray, UnknownField, Lacks, IsDefault, EncTagged, EncItems;
    var b := EncField(f, slot).bytes;
    if b == [] {
      assert b + tail == tail;
    } else if f.htype == Repeated {
      ArrayIsSkipped(d, f, slot.items, st, pos, tail);
    } else {
      var v := ValueIn(slot);
      OneIsUnknown(d, f, v);
      UnknownIsSkipped(d, st, pos, EncOne(f, v).bytes, tail);
    }
  }

  lemma ArrayIsSkipped(d: Descriptor, f: Field, items: seq<Value>, st: Progress, pos: nat, tail: Bytes)
    requires TagOk(f.tag) && Lacks(d, f.tag) && (d.fields == [] || pos < |d.fields|)
    requires EncArray(f, items).ok && |EncArray(f, items).bytes| < TWO_32
    ensures DecLoop(d, st, pos, EncArray(f, items).bytes + tail) == DecLoop(d, st, pos, tail)
  {
    hide DecLoop, UnknownField, Lacks, EncTagged, EncItems, EncTag, EncString;
    if items == [] {
      assert [] + tail == tail;
    } else if Packable(f.ltype) {
      PackedIsUnknown(d, f, items);
      UnknownIsSkipped(d, st, pos, EncArray(f, items).bytes, tail);
    } else {
      TaggedAreSkipped(d, f, items, 0, st, pos, tail);
    }
  }

  // ----- What remains of a message -----

  /** `w`, stored under `g`, is what remains of `v`, stored under `f`: the same, or a submessage that lacks fields. */
  ghost predicate ValueRemains(f: Field, v: Value, g: Field, w: Value)
    decreases f, 0
  {
    if f.ltype != Submessage then g == f && w == v
    else
      && g.ptr.Sub? && f.ptr.Sub? && g == f.(ptr := g.ptr) && v.MessageV? && w.MessageV?
      && Remains(f.ptr.desc, v.slots, g.ptr.desc, w.slots)
  }

  ghost predicate SlotRemains(f: Field, slot: Slot, g: Field, w: Slot)
    decreases f, 1
  {
    && (g == f || (f.ltype == Submessage && g == f.(ptr := g.ptr)))
    && match f.htype
       case Required => slot.Single? && w.Single? && ValueRemains(f, slot.v, g, w.v)
       case Optional =>
         if f.hasSize then
           && slot.Opt? && w.Opt? && slot.o.Some? == w.o.Some?
           && (slot.o.Some? ==> ValueRemains(f, slot.o.value, g, w.o.value))
         else
           // What is left out is left out of what remains.
           && slot.Single? && w.Single?
           && (if IsDefault(f, slot) then IsDefault(g, w) else ValueRemains(f, slot.v, g, w.v))
       case Repeated =>
         && slot.Many? && w.Many? && |slot.items| == |w.items|
         && forall k | 0 <= k < |slot.items| :: ValueRemains(f, slot.items[k], g, w.items[k])
       case Oneof =>
         && slot.Union? && w.Union?
         && (Selected(f, slot) <==> Selected(f, w))
         && (Selected(f, slot) ==> ValueRemains(f, slot.sel.value.value, g, w.sel.value.value))
  }

  /**
   From field `i` of `d` and field `j` of `e` on: each field of `d` is either unknown to `e`, or it is the next field of
   `e`, with what remains of it.
   */
  ghost predicate FieldsRemain(d: Descriptor, slots: seq<Slot>, i: nat, e: Descriptor, rest: seq<Slot>, j: nat)
    requires i <= |d.fields| && j <= |e.fields|
    decreases d, |d.fields| - i
  {
    if i == |d.fields| then j == |e.fields|
    else
      || (Lacks(e, d.fields[i].tag) && FieldsRemain(d, slots, i + 1, e, rest, j))
      || (&& j < |e.fields| && SlotOf(d, i) < |slots| && SlotOf(e, j) < |rest|
          && SlotRemains(d.fields[i], slots[SlotOf(d, i)], e.fields[j], rest[SlotOf(e, j)])
          && FieldsRemain(d, slots, i + 1, e, rest, j + 1))
  }

  /** `rest` is the part of the message that the descriptor `e`, which lacks fields of `d`, has room for. */
  ghost predicate Remains(d: Descriptor, slots: seq<Slot>, e: Descriptor, rest: seq<Slot>)
    decreases d, |d.fields| + 1
  {
    DescOk(e) && MessageOk(e, rest) && FieldsRemain(d, slots, 0, e, rest, 0)
  }

  // ----- Reading what remains -----

  /** A field that is no submessage is written as before. */
  lemma ScalarFieldStays(f: Field, slot: Slot, g: Field, w: Slot)
    requires SlotRemains(f, slot, g, w) && f.ltype != Submessage && SlotOk(f, slot) && Written(f, slot)
    ensures g == f && Written(g, w) && EncField(f, slot) == EncField(g, w)
  {
    hide EncOne, EncArray, IsDefault, ScalarOk;
    if f.htype == Repeated {
      assert slot.items == w.items;
    }
  }

  /** The value of a submessage field, written with more fields than are read. */
  lemma {:induction false} SubDecodes(f: Field, v: Value, g: Field, w: Value, tail: Bytes)
    requires FieldOk(f) && ValueOk(f, v) && f.ltype == Submessage && ValueRemains(f, v, g, w)
    requires |EncValue(f, v).bytes| < TWO_32
    ensures EncValue(f, v).ok && DecValue(g, DefaultValue(g), EncValue(f, v).bytes + tail) == Some(Read(w, tail))
    decreases f, 0
  {
    hide EncFields, EncString, SplitLength, DecMessage, DefaultSlots, Remains;
    ValueEncodes(f, v);
    var body := EncFields(f.ptr.desc, v.slots, 0).bytes;
    StringIsShorter(body);
    LengthRoundTrip(body, tail);
    RemainsDecodes(f.ptr.desc, v.slots, g.ptr.desc, w.slots);
  }

  /** What is stored in one field, and what remains of it, for a field that is written and no array. */
  lemma WrittenRemains(f: Field, slot: Slot, g: Field, w: Slot)
    requires SlotRemains(f, slot, g, w) && f.ltype == Submessage && SlotOk(f, slot) && Written(f, slot)
    requires f.htype != Repeated
    ensures slot.Single? || (slot.Opt? && slot.o.Some?) || (slot.Union? && slot.sel.Some?)
    ensures w.Single? || (w.Opt? && w.o.Some?) || (w.Union? && w.sel.Some?)
    ensures ValueOk(f, ValueIn(slot)) && ValueRemains(f, ValueIn(slot), g, ValueIn(w))
    ensures EncField(f, slot) == EncOne(f, ValueIn(slot)) && Holding(g, ValueIn(w)) == w
    ensures g.htype == f.htype && g.tag == f.tag && g.ltype == f.ltype
  {
    hide ValueOk, ValueRemains, IsDefault, EncOne;
  }

  /** The bytes of a field with the tag of field `j`, that is no array, are read into its slot. */
  lemma OneReads(e: Descriptor, st: Progress, pos: nat, j: nat, body: Bytes, w: Value, tail: Bytes)
    requires DescOk(e) && pos < |e.fields| && j < |e.fields| && SlotOf(e, j) < |st.slots|
    requires var g := e.fields[j];
      && g.htype != Repeated && st.slots[SlotOf(e, j)].Single? == Holding(g, w).Single?
      && st.slots[SlotOf(e, j)].Opt? == Holding(g, w).Opt?
      && DecValue(g, if g.htype == Oneof then DefaultValue(g) else BaseOf(g, st.slots[SlotOf(e, j)]), body + tail)
         == Some(Read(w, tail))
    ensures var g := e.fields[j];
      DecLoop(e, st, pos, (EncTag(WireType(g.ltype), g.tag) + body) + tail) ==
        DecLoop(e, After(e, st, j, Holding(g, w)), j, tail)
  {
    hide DecValue, EncTag, DecLoop, DefaultValue;
    var g := e.fields[j];
    TagDecodes(e, st, pos, j, WireType(g.ltype), body + tail);
    assert (EncTag(WireType(g.ltype), g.tag) + body) + tail == EncTag(WireType(g.ltype), g.tag) + (body + tail);
    OneOccurrence(e, st, j, WireType(g.ltype), w, body + tail, tail);
  }

  lemma {:induction false} SubFieldDecodes(f: Field, slot: Slot, e: Descriptor, rest: seq<Slot>, j: nat, st: Progress,
      pos: nat, tail: Bytes) returns (next: Progress)
    requires FieldOk(f) && SlotOk(f, slot) && f.ltype == Submessage && f.htype != Repeated && Written(f, slot)
    requires DescOk(e) && MessageOk(e, rest) && j < |e.fields| && pos < |e.fields| && ReadTo(e, rest, st, j)
    requires SlotOf(e, j) < |rest| && SlotRemains(f, slot, e.fields[j], rest[SlotOf(e, j)])
    requires |EncField(f, slot).bytes| < TWO_32
    ensures ReadTo(e, rest, next, j + 1)
    ensures DecLoop(e, st, pos, EncField(f, slot).bytes + tail) == DecLoop(e, next, j, tail)
    decreases f, 1
  {
    hide DecLoop, DecValue, EncValue, EncField, DefaultValue, DefaultSlot, SlotOk, ValueOk, IsDefault, ValueRemains,
      SlotRemains, Written, EncTag;
    var g, k := e.fields[j], SlotOf(e, j);
    assert FieldOk(g) && SlotAt(e, rest, j);
    assert SlotDone(e, rest, st.slots, j, j);
    WrittenRemains(f, slot, g, rest[k]);
    var v, w := ValueIn(slot), ValueIn(rest[k]);
    ValueEncodes(f, v);
    OneIsShorter(f, v);
    SubDecodes(f, v, g, w, tail);
    if g.htype == Oneof {
      UnionShape(g, rest[k]);
    } else {
      InitialBase(g, w);
    }
    OneReads(e, st, pos, j, EncValue(f, v).bytes, w, tail);
    next := After(e, st, j, rest[k]);
    if Written(g, rest[k]) {
      WrittenStep(e, rest, st, next, j);
    } else {
      OnlyOptionalDiffers(f, slot, g, rest[k]);
      UnwrittenStep(e, rest, st, j);
      ReadAnyway(e, rest, st, j);
    }
  }

  lemma OnlyOptionalDiffers(f: Field, slot: Slot, g: Field, w: Slot)
    requires SlotRemains(f, slot, g, w) && f.htype != Repeated && Written(f, slot) && !Written(g, w)
    ensures g.htype == Optional
  {
    hide IsDefault, ValueRemains;
  }

  /** A field that is left out of what remains is read nevertheless, and its slot stays at its default. */
  lemma ReadAnyway(e: Descriptor, rest: seq<Slot>, st: Progress, j: nat)
    requires DescOk(e) && MessageOk(e, rest) && j < |e.fields| && ReadTo(e, rest, st, j)
    requires SlotOf(e, j) < |rest| && !Written(e.fields[j], rest[SlotOf(e, j)]) && e.fields[j].htype == Optional
    ensures After(e, st, j, rest[SlotOf(e, j)]) == st
  {
    hide DefaultSlot, SlotOk, IsDefault;
    var k := SlotOf(e, j);
    assert FieldOk(e.fields[j]) && SlotAt(e, rest, j) && SlotDone(e, rest, st.slots, j, j);
    UnwrittenIsDefault(e.fields[j], rest[k]);
    assert st.slots[k := rest[k]] == st.slots;
  }

  /** The items of a submessage array. */
  lemma {:induction false} SubItemsDecode(f: Field, items: seq<Value>, e: Descriptor, rest: seq<Value>, j: nat, n: nat,
      st: Progress, pos: nat, tail: Bytes) returns (next: Progress, at: nat)
    requires FieldOk(f) && f.ltype == Submessage && f.htype == Repeated && SlotOk(f, Many(items))
    requires DescOk(e) && j < |e.fields| && pos < |e.fields| && SlotOf(e, j) < |st.slots|
    requires SlotRemains(f, Many(items), e.fields[j], Many(rest)) && n <= |items|
    requires var g := e.fields[j];
      && st.slots[SlotOf(e, j)] == Many(rest[..n])
      && (FixedCount(g) && st.fixed != Some(j) ==> n == 0 && FixedFull(e, st))
    requires |EncTagged(f, items, n).bytes| < TWO_32
    ensures at < |e.fields| && next.slots == st.slots[SlotOf(e, j) := Many(rest)] && next.seen == st.seen
    ensures next.fixed == st.fixed || (FixedCount(e.fields[j]) && next.fixed == Some(j))
    ensures DecLoop(e, st, pos, EncTagged(f, items, n).bytes + tail) == DecLoop(e, next, at, tail)
    decreases f, 1, |items| - n
  {
    hide DecLoop, DecValue, EncValue, DefaultValue, EncTag, FixedFull, ValueOk, ValueRemains;
    var g, k := e.fields[j], SlotOf(e, j);
    ItemsEncode(f, items, n);
    if n == |items| {
      assert rest[..n] == rest;
      assert st.slots[k := Many(rest)] == st.slots;
      assert [] + tail == tail;
      next, at := st, pos;
    } else {
      var more := EncTagged(f, items, n + 1).bytes;
      ValueEncodes(f, items[n]);
      SubDecodes(f, items[n], g, rest[n], more + tail);
      ItemReads(e, st, pos, j, rest[..n], EncValue(f, items[n]).bytes, rest[n], more + tail);
      assert rest[..n] + [rest[n]] == rest[..n + 1];
      assert EncTagged(f, items, n).bytes + tail ==
        (EncTag(WireType(g.ltype), g.tag) + EncValue(f, items[n]).bytes) + (more + tail);
      var mid := After(e, st, j, Many(rest[..n + 1]));
      next, at := SubItemsDecode(f, items, e, rest, j, n + 1, mid, j, tail);
      assert mid.slots[k := Many(rest)] == st.slots[k := Many(rest)];
    }
  }

  /** What one more item makes of an array. */
  lemma ItemReads(e: Descriptor, st: Progress, pos: nat, j: nat, items: seq<Value>, body: Bytes, w: Value, tail: Bytes)
    requires DescOk(e) && pos < |e.fields| && j < |e.fields| && SlotOf(e, j) < |st.slots|
    requires var g := e.fields[j];
      && g.htype == Repeated && !Packable(g.ltype) && |items| < g.arraySize
      && st.slots[SlotOf(e, j)] == Many(items)
      && (FixedCount(g) && st.fixed != Some(j) ==> items == [] && FixedFull(e, st))
      && DecValue(g, DefaultValue(g), body + tail) == Some(Read(w, tail))
    ensures DecLoop(e, st, pos, (EncTag(WireType(e.fields[j].ltype), e.fields[j].tag) + body) + tail)
         == DecLoop(e, After(e, st, j, Many(items + [w])), j, tail)
  {
    hide DecLoop, DecValue, DefaultValue, EncTag;
    var g := e.fields[j];
    TagDecodes(e, st, pos, j, WireType(g.ltype), body + tail);
    assert (EncTag(WireType(g.ltype), g.tag) + body) + tail == EncTag(WireType(g.ltype), g.tag) + (body + tail);
    var k := SlotOf(e, j);
    assert st.slots[k := Many([])][k := Many(items + [w])] == st.slots[k := Many(items + [w])];
  }

  lemma {:induction false} SubArrayDecodes(f: Field, items: seq<Value>, e: Descriptor, rest: seq<Slot>, j: nat,
      st: Progress, pos: nat, tail: Bytes) returns (next: Progress, at: nat)
    requires FieldOk(f) && SlotOk(f, Many(items)) && f.ltype == Submessage && f.htype == Repeated && items != []
    requires DescOk(e) && MessageOk(e, rest) && j < |e.fields| && pos < |e.fields| && ReadTo(e, rest, st, j)
    requires SlotOf(e, j) < |rest| && SlotRemains(f, Many(items), e.fields[j], rest[SlotOf(e, j)])
    requires |EncField(f, Many(items)).bytes| < TWO_32
    ensures at < |e.fields| && ReadTo(e, rest, next, j + 1)
    ensures DecLoop(e, st, pos, EncField(f, Many(items)).bytes + tail) == DecLoop(e, next, at, tail)
    decreases f, 2
  {
    hide DecLoop, EncField, EncArray, EncItems, EncTagged, FixedFull, SlotOk, IsDefault, ValueRemains;
    var g, k := e.fields[j], SlotOf(e, j);
    assert SlotAt(e, rest, j) && SlotDone(e, rest, st.slots, j, j);
    ReadIsFull(e, rest, st, j);
    ArrayEncoding(f, items);
    ArrayStart(g);
    assert rest[k].items[..0] == [];
    next, at := SubItemsDecode(f, items, e, rest[k].items, j, 0, st, pos, tail);
    WrittenStep(e, rest, st, next, j);
  }

  // ----- Messages -----

  /** One field of the wider message. */
  lemma {:induction false} FieldRemainsDecodes(f: Field, slot: Slot, e: Descriptor, rest: seq<Slot>, j: nat,
      st: Progress, pos: nat, tail: Bytes) returns (next: Progress, at: nat)
    requires FieldOk(f) && SlotOk(f, slot) && Written(f, slot)
    requires DescOk(e) && MessageOk(e, rest) && j < |e.fields| && pos < |e.fields| && ReadTo(e, rest, st, j)
    requires SlotOf(e, j) < |rest| && SlotRemains(f, slot, e.fields[j], rest[SlotOf(e, j)])
    requires |EncField(f, slot).bytes| < TWO_32
    ensures at < |e.fields| && ReadTo(e, rest, next, j + 1)
    ensures DecLoop(e, st, pos, EncField(f, slot).bytes + tail) == DecLoop(e, next, at, tail)
    decreases f, 3
  {
    hide DecLoop, EncField, SlotOk, IsDefault, ReadTo, DescOk, SlotRemains;
    var g, w := e.fields[j], rest[SlotOf(e, j)];
    if f.ltype == Submessage {
      if f.htype == Repeated {
        next, at := SubArrayDecodes(f, slot.items, e, rest, j, st, pos, tail);
      } else {
        next := SubFieldDecodes(f, slot, e, rest, j, st, pos, tail);
        at := j;
      }
    } else {
      ScalarFieldStays(f, slot, g, w);
      if f.htype == Repeated {
        next, at := ArrayDecodes(e, rest, j, st, pos, tail);
      } else {
        next := SingleDecodes(e, rest, j, st, pos, tail);
        at := j;
      }
    }
  }

  /** One field of the wider message is skipped, or read, or left out by both. */
  lemma {:induction false} NextField(d: Descriptor, slots: seq<Slot>, i: nat, e: Descriptor, rest: seq<Slot>, j: nat,
      st: Progress, pos: nat, more: Bytes) returns (next: Progress, at: nat, k: nat)
    requires DescOk(d) && MessageOk(d, slots) && i < |d.fields| && j <= |e.fields| && SlotOf(d, i) < |slots|
    requires DescOk(e) && MessageOk(e, rest) && FieldsRemain(d, slots, i, e, rest, j)
    requires (e.fields == [] || pos < |e.fields|) && ReadTo(e, rest, st, j)
    requires |EncField(d.fields[i], slots[SlotOf(d, i)]).bytes| < TWO_32
    ensures k <= |e.fields| && FieldsRemain(d, slots, i + 1, e, rest, k)
    ensures (e.fields == [] || at < |e.fields|) && ReadTo(e, rest, next, k)
    ensures DecLoop(e, st, pos, EncField(d.fields[i], slots[SlotOf(d, i)]).bytes + more) == DecLoop(e, next, at, more)
    decreases d, 2
  {
    hide EncField, ReadTo, SlotOk, IsDefault, DecLoop, SlotRemains, Lacks, Written, SlotOf, SlotCount;
    var f, slot := d.fields[i], slots[SlotOf(d, i)];
    assert SlotAt(d, slots, i) && FieldOk(f);
    FieldEncodes(f, slot);
    next, at, k := st, pos, j;
    if Lacks(e, f.tag) && FieldsRemain(d, slots, i + 1, e, rest, j) {
      FieldIsSkipped(e, f, slot, st, pos, more);
    } else {
      k := j + 1;
      if Written(f, slot) {
        next, at := FieldRemainsDecodes(f, slot, e, rest, j, st, pos, more);
      } else {
        UnwrittenRemains(f, slot, e.fields[j], rest[SlotOf(e, j)]);
        UnwrittenStep(e, rest, st, j);
        assert [] + more == more;
      }
    }
  }

  lemma {:induction false} FieldsRemainDecode(d: Descriptor, slots: seq<Slot>, i: nat, e: Descriptor, rest: seq<Slot>,
      j: nat, st: Progress, pos: nat) returns (last: Progress)
    requires DescOk(d) && MessageOk(d, slots) && i <= |d.fields| && j <= |e.fields|
    requires DescOk(e) && MessageOk(e, rest) && FieldsRemain(d, slots, i, e, rest, j)
    requires (e.fields == [] || pos < |e.fields|) && ReadTo(e, rest, st, j) && |EncFields(d, slots, i).bytes| < TWO_32
    ensures ReadTo(e, rest, last, |e.fields|) && DecLoop(e, st, pos, EncFields(d, slots, i).bytes) == Some(last)
    decreases d, 3, |d.fields| - i
  {
    hide EncField, EncFields, ReadTo, MessageOk, DescOk, DecLoop, FieldsRemain;
    if i == |d.fields| {
      NothingRemains(d, slots, e, rest, j);
      NothingEncoded(d, slots, e, st, pos);
      last := st;
    } else {
      FirstField(d, slots, i);
      var next, at, k := NextField(d, slots, i, e, rest, j, st, pos, EncFields(d, slots, i + 1).bytes);
      last := FieldsRemainDecode(d, slots, i + 1, e, rest, k, next, at);
    }
  }

  lemma NothingRemains(d: Descriptor, slots: seq<Slot>, e: Descriptor, rest: seq<Slot>, j: nat)
    requires j <= |e.fields| && FieldsRemain(d, slots, |d.fields|, e, rest, j)
    ensures j == |e.fields|
  {
  }

  lemma UnwrittenRemains(f: Field, slot: Slot, g: Field, w: Slot)
    requires SlotRemains(f, slot, g, w) && !Written(f, slot)
    ensures !Written(g, w)
  {
    hide IsDefault, ValueRemains;
  }

  /**
   Decoding what was encoded with a descriptor that lacks some of the fields, at any depth, gives what remains of the
   message.
   */
  lemma {:induction false} RemainsDecodes(d: Descriptor, slots: seq<Slot>, e: Descriptor, rest: seq<Slot>)
    requires DescOk(d) && MessageOk(d, slots) && Remains(d, slots, e, rest) && |EncMessage(d, slots).bytes| < TWO_32
    ensures EncMessage(d, slots).ok && Decode(e, EncMessage(d, slots).bytes) == Some(rest)
    decreases d, 4
  {
    hide EncFields, ReadTo, SlotOk, DefaultSlots, DescOk, DecLoop, Complete, FieldsRemain;
    FieldsEncode(d, slots, 0);
    MessageSize(e, rest);
    StartReadTo(e, rest);
    var last := FieldsRemainDecode(d, slots, 0, e, rest, 0, Progress(DefaultSlots(e), {}, None), 0);
    AllRead(e, rest, last);
  }

  // ----- Older versions -----

  lemma {:induction false} ValueStays(f: Field, v: Value)
    requires FieldOk(f) && ValueOk(f, v)
    ensures ValueRemains(f, v, f, v)
    decreases f, 0
  {
    hide Remains;
    if f.ltype == Submessage {
      AllRemains(f.ptr.desc, v.slots);
      assert f.(ptr := f.ptr) == f;
    }
  }

  lemma {:induction false} SlotStays(f: Field, slot: Slot)
    requires FieldOk(f) && SlotOk(f, slot)
    ensures SlotRemains(f, slot, f, slot)
    decreases f, 1
  {
    hide ValueRemains, ValueOk, IsDefault;
    match f.htype
    case Required => ValueStays(f, slot.v);
    case Optional =>
      if f.hasSize {
        if slot.o.Some? {
          ValueStays(f, slot.o.value);
        }
      } else if !IsDefault(f, slot) {
        ValueStays(f, slot.v);
      }
    case Repeated =>
      forall k | 0 <= k < |slot.items|
        ensures ValueRemains(f, slot.items[k], f, slot.items[k])
      {
        ValueStays(f, slot.items[k]);
      }
    case Oneof =>
      if slot.sel.Some? && slot.sel.value.tag == f.tag {
        ValueStays(f, slot.sel.value.value);
      }
  }

  /** The descriptor before fields were added behind its first `n`. */
  function Older(d: Descriptor, n: nat): Descriptor
    requires n <= |d.fields|
  {
    Descriptor(d.fields[..n])
  }

  /** What was added does not join a union that was there before. */
  predicate AddsBehind(d: Descriptor, n: nat)
    requires n <= |d.fields|
  {
    0 < n < |d.fields| ==> !Shares(d.fields[n - 1], d.fields[n])
  }

  lemma {:induction false} OlderLayout(d: Descriptor, n: nat, i: nat)
    requires i < n <= |d.fields|
    ensures SlotOf(Older(d, n), i) == SlotOf(d, i)
  {
    if i > 0 {
      OlderLayout(d, n, i - 1);
    }
  }

  lemma OlderCount(d: Descriptor, n: nat)
    requires n <= |d.fields| && AddsBehind(d, n)
    ensures SlotCount(Older(d, n)) == if n == 0 then 0 else SlotOf(d, n - 1) + 1
    ensures 0 < n < |d.fields| ==> SlotOf(d, n) == SlotOf(d, n - 1) + 1
  {
    if n > 0 {
      OlderLayout(d, n, n - 1);
    }
  }

  /** The fields of the older descriptor have the first slots, and the others the rest. */
  lemma OlderSlots(d: Descriptor, n: nat, i: nat)
    requires n <= |d.fields| && AddsBehind(d, n) && i < |d.fields|
    ensures i < n <==> SlotOf(d, i) < SlotCount(Older(d, n))
    ensures SlotCount(Older(d, n)) <= SlotCount(d)
  {
    hide SlotOf, SlotCount, AddsBehind;
    OlderCount(d, n);
    if n > 0 {
      SlotOrder(d, n - 1, n - 1);
      if i < n {
        SlotOrder(d, i, n - 1);
      } else {
        SlotOrder(d, n, i);
      }
    }
  }

  lemma OlderSize(d: Descriptor, n: nat)
    requires n <= |d.fields| && AddsBehind(d, n)
    ensures SlotCount(Older(d, n)) <= SlotCount(d)
  {
    if d.fields != [] {
      OlderSlots(d, n, 0);
    }
  }

  /** What an older version of the message type has of the message. */
  function Earlier(d: Descriptor, slots: seq<Slot>, n: nat): seq<Slot>
    requires n <= |d.fields| && AddsBehind(d, n) && |slots| == SlotCount(d)
  {
    OlderSize(d, n);
    slots[..SlotCount(Older(d, n))]
  }

  lemma OlderIsOk(d: Descriptor, slots: seq<Slot>, n: nat)
    requires DescOk(d) && MessageOk(d, slots) && n <= |d.fields| && AddsBehind(d, n)
    ensures DescOk(Older(d, n)) && MessageOk(Older(d, n), Earlier(d, slots, n))
  {
    hide SlotOk, SlotOf, SlotCount, FieldOk;
    var e := Older(d, n);
    OlderSize(d, n);
    forall i | 0 <= i < |e.fields|
      ensures FieldOk(e.fields[i]) && SlotAt(e, Earlier(d, slots, n), i)
    {
      OlderLayout(d, n, i);
      OlderSlots(d, n, i);
      assert FieldOk(d.fields[i]) && SlotAt(d, slots, i);
    }
    forall k | 0 <= k < |Earlier(d, slots, n)| && slots[k].Union? && slots[k].sel.Some?
      ensures Selects(e, k, slots[k].sel.value.tag)
    {
      assert Selects(d, k, slots[k].sel.value.tag);
      var j: nat :| j < |d.fields| && SelectedBy(d, slots[k].sel.value.tag, k, j);
      OlderSlots(d, n, j);
      OlderLayout(d, n, j);
      assert SelectedBy(e, slots[k].sel.value.tag, k, j);
    }
  }

  lemma {:induction false} OlderRemains(d: Descriptor, slots: seq<Slot>, n: nat, i: nat)
    requires DescOk(d) && MessageOk(d, slots) && n <= |d.fields| && AddsBehind(d, n) && i <= |d.fields|
    ensures FieldsRemain(d, slots, i, Older(d, n), Earlier(d, slots, n), if i < n then i else n)
    decreases d, 2, |d.fields| - i
  {
    hide SlotOk, SlotOf, SlotCount, SlotRemains;
    if i < |d.fields| {
      OlderRemains(d, slots, n, i + 1);
      OlderSlots(d, n, i);
      assert FieldOk(d.fields[i]) && SlotAt(d, slots, i);
      if i < n {
        OlderLayout(d, n, i);
        SlotStays(d.fields[i], slots[SlotOf(d, i)]);
      } else {
        assert Lacks(Older(d, n), d.fields[i].tag);
      }
    }
  }

  /** All of a message remains under its own descriptor. */
  lemma {:induction false} AllRemains(d: Descriptor, slots: seq<Slot>)
    requires DescOk(d) && MessageOk(d, slots)
    ensures Remains(d, slots, d, slots)
    decreases d, 3
  {
    hide SlotOk, SlotRemains, FieldsRemain;
    OlderRemains(d, slots, |d.fields|, 0);
    assert d.fields[..|d.fields|] == d.fields && Older(d, |d.fields|) == d;
    assert Earlier(d, slots, |d.fields|) == slots;
  }

  /** An older version of a message type, to which fields have been added since, reads the part that it has. */
  lemma OlderVersionReads(d: Descriptor, slots: seq<Slot>, n: nat)
    requires DescOk(d) && MessageOk(d, slots) && n <= |d.fields| && AddsBehind(d, n)
    requires |EncMessage(d, slots).bytes| < TWO_32
    ensures Decode(Older(d, n), EncMessage(d, slots).bytes) == Some(Earlier(d, slots, n))
  {
    hide FieldsRemain, EncMessage, Decode, SlotOk;
    OlderIsOk(d, slots, n);
    OlderRemains(d, slots, n, 0);
    RemainsDecodes(d, slots, Older(d, n), Earlier(d, slots, n));
  }

  // ----- Newer versions -----

  /** A field that an old message may lack: nothing is written for what it is initially. */
  predicate MayBeMissing(f: Field) {
    f.htype != Required && (f.htype == Repeated ==> f.hasSize) && IsDefault(f, DefaultSlot(f))
  }

  predicate AddsMissing(d: Descriptor, n: nat) {
    forall i | n <= i < |d.fields| :: MayBeMissing(d.fields[i])
  }

  /** The message of an older version, with the fields added since at their initial values. */
  function Widened(d: Descriptor, rest: seq<Slot>, n: nat): seq<Slot>
    requires n <= |d.fields| && AddsBehind(d, n) && |rest| == SlotCount(Older(d, n))
  {
    OlderSize(d, n);
    rest + DefaultSlots(d)[|rest|..]
  }

  /** What the wider message has in the slot of each field. */
  lemma WidenedAt(d: Descriptor, rest: seq<Slot>, n: nat, i: nat)
    requires n <= |d.fields| && AddsBehind(d, n) && |rest| == SlotCount(Older(d, n)) && i < |d.fields|
    ensures var wide, k := Widened(d, rest, n), SlotOf(d, i);
      && |wide| == SlotCount(d) && k < |wide|
      && (if i < n then k < |rest| && SlotOf(Older(d, n), i) == k && wide[k] == rest[k]
          else k >= |rest| && wide[k] == DefaultSlot(d.fields[i]))
  {
    hide SlotOf, SlotCount, DefaultSlots, DefaultSlot;
    OlderSlots(d, n, i);
    DefaultAt(d, i);
    if i < n {
      OlderLayout(d, n, i);
    }
  }

  lemma MissingIsOk(f: Field)
    requires MayBeMissing(f)
    ensures SlotOk(f, DefaultSlot(f)) && EncField(f, DefaultSlot(f)) == EMPTY
  {
    hide DefaultValue, IsDefault;
  }

  lemma WidenedIsOk(d: Descriptor, rest: seq<Slot>, n: nat)
    requires DescOk(d) && n <= |d.fields| && AddsBehind(d, n) && AddsMissing(d, n) && MessageOk(Older(d, n), rest)
    ensures MessageOk(d, Widened(d, rest, n))
  {
    hide SlotOk, SlotOf, SlotCount, FieldOk, MayBeMissing, Widened, DefaultSlot;
    var e, wide := Older(d, n), Widened(d, rest, n);
    MessageSize(e, rest);
    forall i | 0 <= i < |d.fields|
      ensures |wide| == SlotCount(d) && SlotAt(d, wide, i)
    {
      WidenedAt(d, rest, n, i);
      if i < n {
        assert SlotAt(e, rest, i);
      } else {
        MissingIsOk(d.fields[i]);
      }
    }
    WidenedSize(d, rest, n);
    forall k | 0 <= k < |wide| && wide[k].Union? && wide[k].sel.Some?
      ensures Selects(d, k, wide[k].sel.value.tag)
    {
      SelectionStays(d, rest, n, k);
    }
  }

  lemma WidenedSize(d: Descriptor, rest: seq<Slot>, n: nat)
    requires n <= |d.fields| && AddsBehind(d, n) && |rest| == SlotCount(Older(d, n))
    ensures |Widened(d, rest, n)| == SlotCount(d)
  {
    hide DefaultSlots;
    OlderSize(d, n);
  }

  lemma SelectionStays(d: Descriptor, rest: seq<Slot>, n: nat, k: nat)
    requires n <= |d.fields| && AddsBehind(d, n) && MessageOk(Older(d, n), rest)
    requires var wide := Widened(d, rest, n); k < |wide| && wide[k].Union? && wide[k].sel.Some?
    ensures Selects(d, k, Widened(d, rest, n)[k].sel.value.tag)
  {
    hide SlotOk, SlotOf, Widened, DefaultSlot;
    var e, wide := Older(d, n), Widened(d, rest, n);
    WidenedSize(d, rest, n);
    var j := SlotOwnerOf(d, k);
    WidenedAt(d, rest, n, j);
    if j < n {
      assert Selects(e, k, rest[k].sel.value.tag);
      var i: nat :| i < |e.fields| && SelectedBy(e, rest[k].sel.value.tag, k, i);
      WidenedAt(d, rest, n, i);
      assert SelectedBy(d, rest[k].sel.value.tag, k, i);
    } else {
      NothingSelected(d.fields[j]);
    }
  }

  lemma NothingSelected(f: Field)
    ensures DefaultSlot(f).Union? ==> DefaultSlot(f).sel.None?
  {
  }

  lemma SlotOwnerOf(d: Descriptor, k: nat) returns (j: nat)
    requires k < SlotCount(d)
    ensures j < |d.fields| && SlotOf(d, j) == k
  {
    j := SlotOwner(d, k, |d.fields|);
  }

  /** With the new fields at their initial values, the same is written as by the older version. */
  lemma {:induction false} WidenedWrites(d: Descriptor, rest: seq<Slot>, n: nat, i: nat)
    requires n <= |d.fields| && AddsBehind(d, n) && AddsMissing(d, n) && MessageOk(Older(d, n), rest) && i <= |d.fields|
    ensures EncFields(d, Widened(d, rest, n), i) == if i < n then EncFields(Older(d, n), rest, i) else EMPTY
    decreases |d.fields| - i
  {
    hide SlotOk, SlotOf, Widened, DefaultSlot, EncField, MayBeMissing;
    if i < |d.fields| {
      WidenedAt(d, rest, n, i);
      WidenedWrites(d, rest, n, i + 1);
      if i < n {
        assert Older(d, n).fields[i] == d.fields[i];
        assert i + 1 == n ==> EncFields(Older(d, n), rest, n) == EMPTY;
      } else {
        MissingIsOk(d.fields[i]);
      }
    }
  }

  /** A newer version of a message type reads what an older one wrote; the fields added since are at their defaults. */
  lemma NewerVersionReads(d: Descriptor, rest: seq<Slot>, n: nat)
    requires DescOk(d) && n <= |d.fields| && AddsBehind(d, n) && AddsMissing(d, n) && MessageOk(Older(d, n), rest)
    requires |EncMessage(Older(d, n), rest).bytes| < TWO_32
    ensures Decode(d, EncMessage(Older(d, n), rest).bytes) == Some(Widened(d, rest, n))
  {
    hide SlotOk, SlotOf, EncFields, Widened, Decode, DescOk;
    WidenedIsOk(d, rest, n);
    WidenedWrites(d, rest, n, 0);
    if n == 0 {
      NothingWritten(Older(d, 0), rest);
    }
    SurvivesRoundTrip(d, Widened(d, rest, n));
  }

  lemma NothingWritten(e: Descriptor, rest: seq<Slot>)
    requires e.fields == []
    ensures EncMessage(e, rest) == EMPTY
  {
  }
}
