/**
 What nanopb refuses: the encoder exactly the values that cannot be stored in their fields, the decoder a field that is
 cut short anywhere or has a wire type that does not exist. A zero tag ends a message.
 */
module PbRefusal {
  import opened Wrappers
  import opened PbVarint
  import opened PbModel
  import opened PbEncode
  import opened PbDecode
  import opened PbRoundTrip
  import opened PbUnknown

  // ----- The encoder -----

  /** A value of the kind of its field, within its size; a string needs no terminator here. */
  predicate Encodable(f: Field, v: Value)
    decreases f, 0
  {
    match f.ltype
    case Varint => v.IntV? && SignedFits(v.n, f.dataSize)
    case UVarint => v.IntV? && UnsignedFits(v.n, f.dataSize)
    case SVarint => v.IntV? && SignedFits(v.n, f.dataSize)
    case Fixed32 => true
    case Fixed64 => true
    case BytesType => v.BytesV? && BYTES_HEADER + |v.data| <= f.dataSize
    case StringType => v.StringV?
    case FixedLengthBytes => v.FixedV? && |v.bytes| == f.dataSize
    case Submessage => v.MessageV? && f.ptr.Sub? && EncodableFrom(f.ptr.desc, v.slots, 0)
  }

  predicate SlotEncodable(f: Field, slot: Slot)
    decreases f, 1
  {
    match f.htype
    case Required => slot.Single? && Encodable(f, slot.v)
    case Optional =>
      if f.hasSize then slot.Opt? && (slot.o.Some? ==> Encodable(f, slot.o.value))
      else slot.Single? && (IsDefault(f, slot) || Encodable(f, slot.v))
    case Repeated =>
      && slot.Many? && (f.hasSize || |slot.items| == f.arraySize) && |slot.items| <= f.arraySize
      && forall k | 0 <= k < |slot.items| :: Encodable(f, slot.items[k])
    case Oneof => slot.Union? && (Selected(f, slot) ==> Encodable(f, slot.sel.value.value))
  }

  /** The fields from field `i` on. */
  predicate EncodableFrom(d: Descriptor, slots: seq<Slot>, i: nat)
    requires i <= |d.fields|
    decreases d, |d.fields| - i
  {
    i == |d.fields|
    || (SlotOf(d, i) < |slots| && SlotEncodable(d.fields[i], slots[SlotOf(d, i)]) && EncodableFrom(d, slots, i + 1))
  }

  lemma {:induction false} ValueExactly(f: Field, v: Value)
    ensures EncValue(f, v).ok <==> Encodable(f, v)
    decreases f, 0
  {
    hide EncVarint, LittleEndian, ZigZag, EncWord, StringLength, EncString, EncFields, EncodableFrom;
    if f.ltype == Submessage && v.MessageV? && f.ptr.Sub? {
      EncodesExactly(f.ptr.desc, v.slots);
    }
  }

  lemma {:induction false} ItemsExactly(f: Field, items: seq<Value>, i: nat)
    requires i <= |items|
    ensures EncItems(f, items, i).ok <==> forall k | i <= k < |items| :: Encodable(f, items[k])
    ensures EncTagged(f, items, i).ok <==> forall k | i <= k < |items| :: Encodable(f, items[k])
    decreases f, 1, |items| - i
  {
    hide EncValue, Encodable, EncTag;
    if i < |items| {
      ValueExactly(f, items[i]);
      ItemsExactly(f, items, i + 1);
    }
  }

  lemma {:induction false} FieldExactly(f: Field, slot: Slot)
    ensures EncField(f, slot).ok <==> SlotEncodable(f, slot)
    decreases f, 2
  {
    hide EncValue, Encodable, EncTag, EncItems, EncTagged, IsDefault;
    match f.htype
    case Required =>
      if slot.Single? {
        ValueExactly(f, slot.v);
      }
    case Optional =>
      if slot.Opt? && slot.o.Some? {
        ValueExactly(f, slot.o.value);
      } else if slot.Single? {
        ValueExactly(f, slot.v);
      }
    case Repeated =>
      if slot.Many? {
        ItemsExactly(f, slot.items, 0);
      }
    case Oneof =>
      if Selected(f, slot) {
        ValueExactly(f, slot.sel.value.value);
      }
  }

  lemma {:induction false} FieldsExactly(d: Descriptor, slots: seq<Slot>, i: nat)
    requires i <= |d.fields|
    ensures EncFields(d, slots, i).ok <==> EncodableFrom(d, slots, i)
    decreases d, 2, |d.fields| - i
  {
    hide EncField, SlotEncodable, SlotOf;
    if i < |d.fields| {
      FieldsExactly(d, slots, i + 1);
      if SlotOf(d, i) < |slots| {
        FieldExactly(d.fields[i], slots[SlotOf(d, i)]);
      }
    }
  }

  /** Exactly the messages are encoded of which every value fits its field. */
  lemma {:induction false} EncodesExactly(d: Descriptor, slots: seq<Slot>)
    ensures EncMessage(d, slots).ok <==> EncodableFrom(d, slots, 0)
    decreases d, 3
  {
    hide EncFields, EncodableFrom;
    FieldsExactly(d, slots, 0);
  }

  // ----- The decoder -----

  /** A field that is cut short, wherever, is refused. */
  lemma CutShortFails(d: Descriptor, st: Progress, pos: nat, s: Bytes, k: nat)
    requires (d.fields == [] || pos < |d.fields|) && RoundOf(d, st, pos, s).GoesOn?
    requires 0 < k < |s| - |RoundOf(d, st, pos, s).rest|
    ensures RoundOf(d, st, pos, s[..k]) == Fails
  {
    hide RoundOf;
    var r := RoundOf(d, st, pos, s[..k]);
    assert s[..k] + s[k..] == s;
    if r.GoesOn? {
      UsesNoMore(d, st, pos, s[..k], s[k..]);
    } else if r.Ends? {
      EndsIsLocal(d, st, pos, s[..k], s[k..]);
    }
  }

  /** A round that goes on leaves all that follows. */
  lemma UsesNoMore(d: Descriptor, st: Progress, pos: nat, a: Bytes, b: Bytes)
    requires (d.fields == [] || pos < |d.fields|) && RoundOf(d, st, pos, a).GoesOn?
    ensures var r := RoundOf(d, st, pos, a + b); r.GoesOn? && |r.rest| >= |b|
  {
    hide RoundOf;
    var r := RoundOf(d, st, pos, a);
    RoundIsLocal(d, st, pos, a, r.rest + b);
    RoundSuffix(d, st, pos, a);
    assert Front(a, |r.rest|) + (r.rest + b) == a + b;
  }

  /** Where a message ends, it ends whatever follows. */
  lemma EndsIsLocal(d: Descriptor, st: Progress, pos: nat, s: Bytes, t: Bytes)
    requires (d.fields == [] || pos < |d.fields|) && s != [] && RoundOf(d, st, pos, s).Ends?
    ensures RoundOf(d, st, pos, s + t).Ends?
  {
    hide DecVarint32, DecOccurrence, FindFrom, SkipField;
    var got := DecVarint32(s).value;
    Varint32IsLocal(s, got.rest + t);
    assert s == Front(s, |got.rest|) + got.rest;
    assert s + t == Front(s, |got.rest|) + (got.rest + t);
  }

  /** A zero tag ends the message, whatever follows it. */
  lemma ZeroTagEnds(d: Descriptor, st: Progress, pos: nat, t: Bytes)
    requires d.fields == [] || pos < |d.fields|
    ensures DecLoop(d, st, pos, [0] + t) == Some(st)
  {
    hide DecOccurrence, FindFrom, SkipField;
    var s: Bytes := [0] + t;
    assert s[0] == 0;
  }

  /** An unknown field is refused if its wire type does not exist. */
  lemma UnknownWireTypeFails(d: Descriptor, st: Progress, pos: nat, tag: nat, wireType: nat, t: Bytes)
    requires (d.fields == [] || pos < |d.fields|) && TagOk(tag)
    requires forall i | 0 <= i < |d.fields| :: d.fields[i].tag != tag
    requires wireType < 8 && wireType !in {WT_VARINT, WT_64BIT, WT_STRING, WT_32BIT}
    ensures DecLoop(d, st, pos, EncTag(wireType, tag) + t) == None
  {
    hide EncVarint, DecVarint32, DecOccurrence, FindFrom, SplitLength, SkipVarint;
    var word := tag * 8 + wireType;
    assert word % TWO_64 == word && word / 8 == tag && word % 8 == wireType;
    Varint32RoundTrip(word, t);
    if d.fields != [] {
      FindIffPresent(d, pos, tag);
    }
  }

  /** Byte strings of fixed length may come empty, and are then all zeros. */
  lemma EmptyFixedIsZeros(f: Field, base: Value, t: Bytes)
    requires f.ltype == FixedLengthBytes
    ensures DecValue(f, base, EncString([]) + t) == Some(Read(FixedV(Zeros(f.dataSize)), t))
  {
    hide EncVarint, DecVarint32;
    LengthRoundTrip([], t);
    assert [] + t == t;
  }

  /** A number with a sign, of at most 32 bits, is read from the low 32 bits of the varint, exactly if it fits. */
  lemma LowWordDecides(f: Field, base: Value, u: nat, t: Bytes)
    requires f.ltype == Varint && f.dataSize in {1, 2, 4} && u < TWO_64
    ensures var o := DecValue(f, base, EncVarint(u) + t);
      && (o.Some? ==> o.value.v.IntV? && SignedFits(o.value.v.n, f.dataSize) && o.value.rest == t)
      && forall n: int | SignedFits(n, f.dataSize) ::
           n % TWO_32 == u % TWO_32 <==> o == Some(Read(IntV(n), t))
  {
    hide EncVarint, DecVarint;
    VarintRoundTrip(u, t);
    var m := Signed32(Word32(u));
    SignedIsCongruent(u);
    forall n: int | SignedFits(n, f.dataSize)
      ensures n % TWO_32 == u % TWO_32 <==> n == m
    {
      OnlyOneFits(n, m, u);
    }
  }

  lemma SignedIsCongruent(u: nat)
    requires u < TWO_64
    ensures Signed32(Word32(u)) % TWO_32 == u % TWO_32
    ensures -0x8000_0000 <= Signed32(Word32(u)) < 0x8000_0000
  {
  }

  lemma OnlyOneFits(n: int, m: int, u: nat)
    requires -0x8000_0000 <= n < 0x8000_0000 && -0x8000_0000 <= m < 0x8000_0000 && m % TWO_32 == u % TWO_32
    ensures n % TWO_32 == u % TWO_32 <==> n == m
  {
    if n < 0 {
      assert n % TWO_32 == n + TWO_32;
    }
    if m < 0 {
      assert m % TWO_32 == m + TWO_32;
    }
  }

  /** The items of an array without a stored count come in one run: no other is begun before it is full. */
  lemma UnfinishedArrayFails(d: Descriptor, st: Progress, pos: nat, i: nat, wireType: nat, t: Bytes)
    requires DescOk(d) && pos < |d.fields| && i < |d.fields| && wireType < 8 && FixedCount(d.fields[i])
    requires st.fixed.Some? && st.fixed.value < |d.fields| && st.fixed.value != i
    requires var j := st.fixed.value;
      && SlotOf(d, j) < |st.slots| && st.slots[SlotOf(d, j)].Many?
      && |st.slots[SlotOf(d, j)].items| < d.fields[j].arraySize
    ensures DecLoop(d, st, pos, EncTag(wireType, d.fields[i].tag) + t) == None
  {
    hide DecLoop, EncTag, DecField;
    TagDecodes(d, st, pos, i, wireType, t);
  }
}
