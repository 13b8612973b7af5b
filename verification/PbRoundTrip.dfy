/**
 nanopb round trip: decoding what was encoded gives back the message, for every well-formed tree of static
 descriptors and every message of which the encoder leaves out nothing but defaults. `PbLoss` has the rest.
 */
module PbRoundTrip {
  import opened Wrappers
  import opened PbVarint
  import opened PbModel
  import opened PbEncode
  import opened PbDecode

  // ----- Messages that fit -----

  /** A field tag that leaves room for the wire type in 32 bits. */
  predicate TagOk(tag: nat) { 0 < tag < 0x2000_0000 }

  predicate FieldOk(f: Field)
    decreases f
  {
    && TagOk(f.tag) && (f.ltype == Submessage <==> f.ptr.Sub?)
    && (f.htype == Optional && !f.hasSize && f.ltype != Submessage ==> f.ptr.Null?)
    && (f.ptr.Sub? ==> DescOk(f.ptr.desc))
  }

  /** A tree of descriptors as the generator emits it: a proto3 singular field has no default of its own. */
  predicate DescOk(d: Descriptor)
    decreases d
  {
    DistinctTags(d) && forall i | 0 <= i < |d.fields| :: FieldOk(d.fields[i])
  }

  /** A value that fits its field; a string has no zero inside and room for its terminator. */
  predicate ValueFits(f: Field, v: Value)
    decreases f, 0
  {
    if f.ltype == Submessage then v.MessageV? && f.ptr.Sub? && MessageFits(f.ptr.desc, v.slots) else ScalarOk(f, v)
  }

  predicate SlotFits(f: Field, slot: Slot)
    decreases f, 1
  {
    match f.htype
    case Required => slot.Single? && ValueFits(f, slot.v)
    case Optional =>
      if f.hasSize then slot.Opt? && (slot.o.Some? ==> ValueFits(f, slot.o.value))
      else slot.Single? && ValueFits(f, slot.v)
    case Repeated =>
      && slot.Many? && |slot.items| <= f.arraySize && (f.hasSize || |slot.items| == f.arraySize)
      && forall k | 0 <= k < |slot.items| :: ValueFits(f, slot.items[k])
    case Oneof => slot.Union? && (slot.sel.Some? && slot.sel.value.tag == f.tag ==> ValueFits(f, slot.sel.value.value))
  }

  /** A message that can be stored: values in range, and a selected member for every union that has a selection. */
  predicate MessageFits(d: Descriptor, slots: seq<Slot>)
    decreases d, 2
  {
    && |slots| == SlotCount(d)
    && (forall i | 0 <= i < |d.fields| :: SlotFitsAt(d, slots, i))
    && forall k | 0 <= k < |slots| :: slots[k].Union? && slots[k].sel.Some? ==> Selects(d, k, slots[k].sel.value.tag)
  }

  predicate SlotFitsAt(d: Descriptor, slots: seq<Slot>, i: nat)
    requires i < |d.fields|
    decreases d, 1
  {
    SlotOf(d, i) < |slots| && SlotFits(d.fields[i], slots[SlotOf(d, i)])
  }

  // ----- Messages of which nothing is lost -----

  predicate ScalarOk(f: Field, v: Value) {
    match f.ltype
    case Varint => v.IntV? && SignedFits(v.n, f.dataSize)
    case UVarint => v.IntV? && UnsignedFits(v.n, f.dataSize)
    case SVarint => v.IntV? && SignedFits(v.n, f.dataSize)
    case Fixed32 => v.IntV? && 0 <= v.n < TWO_32
    case Fixed64 => v.IntV? && 0 <= v.n < TWO_64
    case BytesType => v.BytesV? && |v.data| + BYTES_HEADER <= f.dataSize
    case StringType => v.StringV? && |v.chars| < f.dataSize && forall k | 0 <= k < |v.chars| :: v.chars[k] != 0
    case FixedLengthBytes => v.FixedV? && |v.bytes| == f.dataSize
    case Submessage => false
  }

  /** A value whose submessages lose nothing. */
  predicate ValueOk(f: Field, v: Value)
    decreases f, 0
  {
    if f.ltype == Submessage then v.MessageV? && f.ptr.Sub? && MessageOk(f.ptr.desc, v.slots) else ScalarOk(f, v)
  }

  /** A proto3 singular field that passes for zero, and is left out, must be what decoding starts from. */
  predicate SlotOk(f: Field, slot: Slot)
    decreases f, 1
  {
    match f.htype
    case Required => slot.Single? && ValueOk(f, slot.v)
    case Optional =>
      if f.hasSize then slot.Opt? && (slot.o.Some? ==> ValueOk(f, slot.o.value))
      else slot.Single? && (if IsDefault(f, slot) then slot == DefaultSlot(f) else ValueOk(f, slot.v))
    case Repeated =>
      && slot.Many? && |slot.items| <= f.arraySize && (f.hasSize || |slot.items| == f.arraySize)
      && forall k | 0 <= k < |slot.items| :: ValueOk(f, slot.items[k])
    case Oneof => slot.Union? && (slot.sel.Some? && slot.sel.value.tag == f.tag ==> ValueOk(f, slot.sel.value.value))
  }

  /** The union holds the member. */
  predicate Selected(f: Field, slot: Slot) { slot.Union? && slot.sel.Some? && slot.sel.value.tag == f.tag }

  predicate SelectedBy(d: Descriptor, tag: nat, k: nat, j: nat)
    requires j < |d.fields|
  {
    SlotOf(d, j) == k && d.fields[j].htype == Oneof && d.fields[j].tag == tag
  }

  /** Some member of the union selected in slot `k` has the selected tag. */
  predicate Selects(d: Descriptor, k: nat, tag: nat) {
    exists j: nat | j < |d.fields| :: SelectedBy(d, tag, k, j)
  }

  predicate MessageOk(d: Descriptor, slots: seq<Slot>)
    decreases d, 2
  {
    && |slots| == SlotCount(d)
    && (forall i | 0 <= i < |d.fields| :: SlotAt(d, slots, i))
    && forall k | 0 <= k < |slots| :: slots[k].Union? && slots[k].sel.Some? ==> Selects(d, k, slots[k].sel.value.tag)
  }

  predicate SlotAt(d: Descriptor, slots: seq<Slot>, i: nat)
    requires i < |d.fields|
    decreases d, 1
  {
    SlotOf(d, i) < |slots| && SlotOk(d.fields[i], slots[SlotOf(d, i)])
  }

  // ----- Scalars -----

  lemma LengthRoundTrip(b: Bytes, rest: Bytes)
    requires |b| < TWO_32
    ensures SplitLength(EncString(b) + rest) == Some(Split(b, rest))
    ensures DecVarint32(EncString(b) + rest) == Some(Got(|b|, b + rest))
  {
    hide EncVarint, DecVarint32;
    Varint32RoundTrip(|b|, b + rest);
    assert EncString(b) + rest == EncVarint(|b|) + (b + rest);
    assert (b + rest)[..|b|] == b && (b + rest)[|b|..] == rest;
  }

  lemma SignedRoundTrip(n: int, size: nat)
    requires SignedFits(n, size)
    ensures SignedOf(n % TWO_64, size) == n
  {
    if n < 0 {
      assert n % TWO_64 == n + TWO_64;
    }
    if size != 8 {
      LowWord(n);
    }
  }

  lemma LowWord(n: int)
    requires 0 <= n + 0x8000_0000 < TWO_32
    ensures Signed32(Word32(n % TWO_64)) == n
  {
    if n < 0 {
      assert n % TWO_64 == n + TWO_64;
      assert (n + TWO_64) % TWO_32 == n + TWO_32;
    } else {
      assert n % TWO_64 == n;
    }
  }

  /** A scalar value, or a string of bytes, reads back, whatever it is read over. */
  lemma ScalarRoundTrip(f: Field, v: Value, base: Value, rest: Bytes)
    requires ValueOk(f, v) && f.ltype != Submessage && EncValue(f, v).ok
    requires |EncValue(f, v).bytes| < TWO_32
    ensures DecValue(f, base, EncValue(f, v).bytes + rest) == Some(Read(v, rest))
  {
    hide EncVarint, DecVarint, DecVarint32, LittleEndian, FromLittleEndian, ZigZag, UnZigZag, StringLength, Pow2,
      Word32, EncString;
    var s := EncValue(f, v).bytes + rest;
    match f.ltype
    case Varint =>
      VarintRoundTrip(v.n % TWO_64, rest);
      SignedRoundTrip(v.n, f.dataSize);
    case UVarint =>
      VarintRoundTrip(v.n, rest);
    case SVarint =>
      VarintRoundTrip(ZigZag(v.n), rest);
      ZigZagRoundTrip(v.n);
    case Fixed32 =>
      FixedRoundTrip(v.n, 4, rest);
    case Fixed64 =>
      FixedRoundTrip(v.n, 8, rest);
    case BytesType =>
      StringIsShorter(v.data);
      LengthRoundTrip(v.data, rest);
      assert (v.data + rest)[..|v.data|] == v.data && (v.data + rest)[|v.data|..] == rest;
    case StringType =>
      FullLength(v.chars, f.dataSize);
      assert v.chars[..|v.chars|] == v.chars;
      StringIsShorter(v.chars);
      LengthRoundTrip(v.chars, rest);
      assert (v.chars + rest)[..|v.chars|] == v.chars && (v.chars + rest)[|v.chars|..] == rest;
    case FixedLengthBytes =>
      StringIsShorter(v.bytes);
      LengthRoundTrip(v.bytes, rest);
      assert (v.bytes + rest)[..|v.bytes|] == v.bytes && (v.bytes + rest)[|v.bytes|..] == rest;
      assert |v.bytes| == 0 ==> Zeros(f.dataSize) == v.bytes;
  }

  lemma StringIsShorter(b: Bytes)
    ensures |b| < |EncString(b)|
  {
  }

  lemma FixedRoundTrip(n: nat, k: nat, rest: Bytes)
    requires (k == 4 && n < TWO_32) || (k == 8 && n < TWO_64)
    ensures var b := LittleEndian(n, k) + rest; FromLittleEndian(b[..k]) == n && b[k..] == rest
  {
    hide Pow2, LittleEndian, FromLittleEndian;
    Pow2Values();
    assert (LittleEndian(n, k) + rest)[..k] == LittleEndian(n, k);
    LittleEndianRoundTrip(n, k);
  }

  lemma {:induction false} FullLength(s: Bytes, maxSize: nat)
    requires |s| <= maxSize && forall k | 0 <= k < |s| :: s[k] != 0
    ensures StringLength(s, maxSize) == |s|
  {
    if s != [] {
      FullLength(s[1..], maxSize - 1);
    }
  }

  // ----- Layout -----

  /** Fields that share a slot are members of one union. */
  lemma {:induction false} SharedSlot(d: Descriptor, j: nat, i: nat)
    requires j < i < |d.fields| && SlotOf(d, j) == SlotOf(d, i)
    ensures d.fields[j].htype == Oneof && d.fields[i].htype == Oneof
  {
    SlotOrder(d, j, i - 1);
    if j < i - 1 {
      SharedSlot(d, j, i - 1);
    }
  }

  /** Every slot belongs to some field. */
  lemma {:induction false} SlotOwner(d: Descriptor, k: nat, n: nat) returns (i: nat)
    requires 0 < n <= |d.fields| && k <= SlotOf(d, n - 1)
    ensures i < n && SlotOf(d, i) == k
  {
    if SlotOf(d, n - 1) == k {
      i := n - 1;
    } else {
      i := SlotOwner(d, k, n - 1);
    }
  }

  lemma {:induction false} DefaultsToAt(d: Descriptor, n: nat, i: nat)
    requires i < n <= |d.fields|
    ensures SlotOf(d, i) < |DefaultsTo(d, n)| && DefaultsTo(d, n)[SlotOf(d, i)] == DefaultSlot(d.fields[i])
    decreases n
  {
    hide DefaultSlot;
    SlotOrder(d, i, n - 1);
    if i < n - 1 {
      DefaultsToAt(d, n - 1, i);
    } else if n > 1 && Shares(d.fields[n - 2], d.fields[n - 1]) {
      DefaultsToAt(d, n - 1, n - 2);
      UnionDefault(d.fields[n - 2]);
      UnionDefault(d.fields[n - 1]);
    }
  }

  lemma UnionDefault(f: Field)
    requires f.htype == Oneof
    ensures DefaultSlot(f) == Union(None)
  {
  }

  /** The initial storage of field `i`. */
  lemma DefaultAt(d: Descriptor, i: nat)
    requires i < |d.fields|
    ensures SlotOf(d, i) < |DefaultSlots(d)| && DefaultSlots(d)[SlotOf(d, i)] == DefaultSlot(d.fields[i])
  {
    hide DefaultSlot, DefaultsTo;
    DefaultsToAt(d, |d.fields|, i);
  }

  // ----- One occurrence in the input -----

  /** A tag leads the decoder to its field. */
  lemma TagDecodes(d: Descriptor, st: Progress, pos: nat, i: nat, wireType: nat, s: Bytes)
    requires DescOk(d) && pos < |d.fields| && i < |d.fields| && wireType < 8
    ensures DecLoop(d, st, pos, EncTag(wireType, d.fields[i].tag) + s) ==
      match DecOccurrence(d, st, i, wireType, s)
      case None => None
      case Some((next, rest)) => DecLoop(d, next, i, rest)
  {
    hide EncVarint, DecVarint32, DecOccurrence, FindFrom, SkipField;
    var tag := d.fields[i].tag;
    assert FieldOk(d.fields[i]);
    var word := tag * 8 + wireType;
    assert word % TWO_64 == word;
    Varint32RoundTrip(word, s);
    FindsField(d, pos, i);
    assert EncTag(wireType, tag) + s == EncVarint(word) + s;
    assert EncVarint(word) + s != [];
    assert word / 8 == tag && word % 8 == wireType;
  }

  lemma FindsField(d: Descriptor, pos: nat, i: nat)
    requires DistinctTags(d) && pos < |d.fields| && i < |d.fields|
    ensures FindFrom(d, pos, 0, d.fields[i].tag) == Some(i)
  {
    hide FindFrom;
    FindIffPresent(d, pos, d.fields[i].tag);
  }

  /** The storage after one occurrence of field `i` has been read. */
  function After(d: Descriptor, st: Progress, i: nat, slot: Slot): Progress
    requires i < |d.fields| && SlotOf(d, i) < |st.slots|
  {
    var fixed := if FixedCount(d.fields[i]) then Some(i) else st.fixed;
    MarkSeen(d, Progress(st.slots[SlotOf(d, i) := slot], st.seen, fixed), i)
  }

  /** The storage that a value is read over, for fields that are not arrays. */
  function BaseOf(f: Field, slot: Slot): Value {
    if slot.Single? then slot.v
    else if slot.Opt? && slot.o.Some? then slot.o.value
    else DefaultValue(f)
  }

  function Holding(f: Field, v: Value): Slot {
    match f.htype
    case Required => Single(v)
    case Optional => if f.hasSize then Opt(Some(v)) else Single(v)
    case Repeated => Many([v])
    case Oneof => Union(Some(Member(f.tag, v)))
  }

  /** A field that is not an array, behind its tag, is read into its slot. */
  lemma OneDecodes(d: Descriptor, st: Progress, pos: nat, i: nat, v: Value, tail: Bytes)
    requires DescOk(d) && pos < |d.fields| && i < |d.fields| && SlotOf(d, i) < |st.slots|
    requires var f := d.fields[i];
      && f.htype != Repeated && st.slots[SlotOf(d, i)].Single? == Holding(f, v).Single?
      && st.slots[SlotOf(d, i)].Opt? == Holding(f, v).Opt?
      && EncValue(f, v).ok
      && DecValue(f, if f.htype == Oneof then DefaultValue(f) else BaseOf(f, st.slots[SlotOf(d, i)]),
                  EncValue(f, v).bytes + tail) == Some(Read(v, tail))
    ensures var f := d.fields[i];
      DecLoop(d, st, pos, EncOne(f, v).bytes + tail) == DecLoop(d, After(d, st, i, Holding(f, v)), i, tail)
  {
    hide DecValue, EncValue, EncTag, DecLoop, DefaultValue;
    var f := d.fields[i];
    var s := EncValue(f, v).bytes + tail;
    TagDecodes(d, st, pos, i, WireType(f.ltype), s);
    assert EncOne(f, v).bytes + tail == EncTag(WireType(f.ltype), f.tag) + s;
    OneOccurrence(d, st, i, WireType(f.ltype), v, s, tail);
  }

  lemma OneOccurrence(d: Descriptor, st: Progress, i: nat, wireType: nat, v: Value, s: Bytes, tail: Bytes)
    requires i < |d.fields| && SlotOf(d, i) < |st.slots|
    requires var f := d.fields[i];
      && f.htype != Repeated && st.slots[SlotOf(d, i)].Single? == Holding(f, v).Single?
      && st.slots[SlotOf(d, i)].Opt? == Holding(f, v).Opt?
      && DecValue(f, if f.htype == Oneof then DefaultValue(f) else BaseOf(f, st.slots[SlotOf(d, i)]), s)
         == Some(Read(v, tail))
    ensures DecOccurrence(d, st, i, wireType, s) == Some((After(d, st, i, Holding(d.fields[i], v)), tail))
  {
    hide DecValue, DefaultValue;
  }

  // ----- Arrays -----

  /** Each packable value takes at least one byte. */
  lemma PackableBytes(f: Field, v: Value)
    requires Packable(f.ltype) && EncValue(f, v).ok
    ensures |EncValue(f, v).bytes| >= 1
  {
    hide EncVarint, LittleEndian, ZigZag, EncWord;
  }

  lemma {:induction false} PackedDecodes(f: Field, items: seq<Value>, k: nat)
    requires Packable(f.ltype) && k <= |items| <= f.arraySize && (forall j | 0 <= j < |items| :: ValueOk(f, items[j]))
    requires EncItems(f, items, k).ok && |EncItems(f, items, k).bytes| < TWO_32
    ensures DecPacked(f, items[..k], EncItems(f, items, k).bytes) == Some((items, []))
    decreases |items| - k
  {
    hide DecValue, EncValue, DefaultValue, ValueOk;
    if k == |items| {
      assert items[..k] == items;
    } else {
      var rest := EncItems(f, items, k + 1).bytes;
      PackableBytes(f, items[k]);
      ScalarRoundTrip(f, items[k], DefaultValue(f), rest);
      PackedDecodes(f, items, k + 1);
      assert items[..k] + [items[k]] == items[..k + 1];
    }
  }

  /** A packed array, behind its tag, is read into an empty slot in one piece. */
  lemma PackedArrayDecodes(d: Descriptor, st: Progress, pos: nat, i: nat, items: seq<Value>, tail: Bytes)
    requires DescOk(d) && pos < |d.fields| && i < |d.fields| && SlotOf(d, i) < |st.slots|
    requires var f := d.fields[i];
      && f.htype == Repeated && Packable(f.ltype) && SlotOk(f, Many(items)) && items != []
      && st.slots[SlotOf(d, i)] == Many([]) && FixedFull(d, st)
      && EncItems(f, items, 0).ok && |EncItems(f, items, 0).bytes| < TWO_32
    ensures EncArray(d.fields[i], items).ok
    ensures DecLoop(d, st, pos, EncArray(d.fields[i], items).bytes + tail)
         == DecLoop(d, After(d, st, i, Many(items)), i, tail)
  {
    hide DecLoop, EncItems, EncTag, EncWord, DecPacked, SplitLength, EncString;
    var f := d.fields[i];
    var body := EncItems(f, items, 0).bytes;
    TagDecodes(d, st, pos, i, WT_STRING, EncString(body) + tail);
    assert EncArray(f, items).bytes + tail == EncTag(WT_STRING, f.tag) + (EncString(body) + tail);
    LengthRoundTrip(body, tail);
    PackedDecodes(f, items, 0);
    assert items[..0] == [];
    var k := SlotOf(d, i);
    assert st.slots[k := Many([])][k := Many(items)] == st.slots[k := Many(items)];
  }

  /** What one more item makes of an array. */
  lemma ItemDecodes(d: Descriptor, st: Progress, pos: nat, i: nat, items: seq<Value>, v: Value, tail: Bytes)
    requires DescOk(d) && pos < |d.fields| && i < |d.fields| && SlotOf(d, i) < |st.slots|
    requires var f := d.fields[i];
      && f.htype == Repeated && !Packable(f.ltype) && |items| < f.arraySize
      && st.slots[SlotOf(d, i)] == Many(items)
      && (FixedCount(f) && st.fixed != Some(i) ==> items == [] && FixedFull(d, st))
      && EncValue(f, v).ok && DecValue(f, DefaultValue(f), EncValue(f, v).bytes + tail) == Some(Read(v, tail))
    ensures DecLoop(d, st, pos, EncOne(d.fields[i], v).bytes + tail)
         == DecLoop(d, After(d, st, i, Many(items + [v])), i, tail)
  {
    hide DecLoop, DecValue, EncValue, DefaultValue, EncTag;
    var f := d.fields[i];
    var s := EncValue(f, v).bytes + tail;
    TagDecodes(d, st, pos, i, WireType(f.ltype), s);
    assert EncOne(f, v).bytes + tail == EncTag(WireType(f.ltype), f.tag) + s;
    var k := SlotOf(d, i);
    assert st.slots[k := Many([])][k := Many(items + [v])] == st.slots[k := Many(items + [v])];
  }

  // ----- Messages, field by field -----

  /** The member selected in slot `k` comes before field `i`. */
  predicate SelectedBefore(d: Descriptor, slots: seq<Slot>, k: nat, i: nat)
    requires k < |slots|
  {
    && slots[k].Union? && slots[k].sel.Some?
    && exists j: nat | j < i && j < |d.fields| :: SelectedBy(d, slots[k].sel.value.tag, k, j)
  }

  /** The slot of field `j` when the fields before `i` have been read. */
  predicate SlotDone(d: Descriptor, slots: seq<Slot>, cur: seq<Slot>, i: nat, j: nat)
    requires j < |d.fields| && SlotOf(d, j) < |slots| && |cur| == |slots|
  {
    var k := SlotOf(d, j);
    if d.fields[j].htype == Oneof then cur[k] == if SelectedBefore(d, slots, k, i) then slots[k] else Union(None)
    else cur[k] == if j < i then slots[k] else DefaultSlot(d.fields[j])
  }

  predicate SlotsDone(d: Descriptor, slots: seq<Slot>, cur: seq<Slot>, i: nat)
    requires |cur| == |slots|
  {
    forall j: nat | j < |d.fields| :: SlotOf(d, j) < |slots| && SlotDone(d, slots, cur, i, j)
  }

  predicate RankSeen(d: Descriptor, seen: set<nat>, j: nat)
    requires j < |d.fields|
  {
    d.fields[j].htype == Required && RequiredBefore(d, j) < MAX_REQUIRED_FIELDS ==> RequiredBefore(d, j) in seen
  }

  predicate SeenTo(d: Descriptor, seen: set<nat>, i: nat) {
    forall j: nat | j < i && j < |d.fields| :: RankSeen(d, seen, j)
  }

  /** The decoder has read the fields before `i`, and nothing else. */
  predicate ReadTo(d: Descriptor, slots: seq<Slot>, st: Progress, i: nat) {
    && |st.slots| == |slots| == SlotCount(d)
    && SlotsDone(d, slots, st.slots, i) && SeenTo(d, st.seen, i)
    && (st.fixed.Some? ==> st.fixed.value < i && st.fixed.value < |d.fields| && FixedCount(d.fields[st.fixed.value]))
  }

  /** An array without a stored count that has been read is full. */
  lemma ReadIsFull(d: Descriptor, slots: seq<Slot>, st: Progress, i: nat)
    requires MessageOk(d, slots) && ReadTo(d, slots, st, i)
    ensures FixedFull(d, st)
  {
    hide DefaultSlot, ValueOk;
    if st.fixed.Some? {
      var j := st.fixed.value;
      assert SlotAt(d, slots, j) && SlotDone(d, slots, st.slots, i, j);
      FixedShape(d.fields[j], slots[SlotOf(d, j)]);
    }
  }

  lemma FixedShape(f: Field, slot: Slot)
    requires SlotOk(f, slot) && FixedCount(f)
    ensures slot.Many? && |slot.items| == f.arraySize
  {
  }

  lemma StartReadTo(d: Descriptor, slots: seq<Slot>)
    requires |slots| == SlotCount(d)
    ensures ReadTo(d, slots, Progress(DefaultSlots(d), {}, None), 0)
  {
    hide DefaultSlot, DefaultSlots;
    forall j: nat | j < |d.fields|
      ensures SlotOf(d, j) < |slots| && SlotDone(d, slots, DefaultSlots(d), 0, j)
    {
      DefaultAt(d, j);
      if d.fields[j].htype == Oneof {
        UnionDefault(d.fields[j]);
      }
    }
  }

  /** When all fields have been read, the storage is the message. */
  lemma AllRead(d: Descriptor, slots: seq<Slot>, st: Progress)
    requires MessageOk(d, slots) && ReadTo(d, slots, st, |d.fields|)
    ensures st.slots == slots && Complete(d, st)
  {
    hide DefaultSlot, SlotOk;
    forall k: nat | k < |slots|
      ensures st.slots[k] == slots[k]
    {
      var j := SlotOwner(d, k, |d.fields|);
      assert SlotDone(d, slots, st.slots, |d.fields|, j) && SlotAt(d, slots, j);
      if d.fields[j].htype == Oneof {
        UnionShape(d.fields[j], slots[k]);
        if slots[k].sel.Some? {
          assert Selects(d, k, slots[k].sel.value.tag);
          assert SelectedBefore(d, slots, k, |d.fields|);
        }
      }
    }
    ReadIsFull(d, slots, st, |d.fields|);
    forall r: nat | r < Min(RequiredBefore(d, |d.fields|), MAX_REQUIRED_FIELDS)
      ensures r in st.seen
    {
      var j := RequiredAt(d, r, |d.fields|);
      assert RankSeen(d, st.seen, j);
    }
  }

  lemma UnionShape(f: Field, slot: Slot)
    requires SlotOk(f, slot) && f.htype == Oneof
    ensures slot.Union?
  {
  }

  /** The required field of rank `r`. */
  lemma {:induction false} RequiredAt(d: Descriptor, r: nat, n: nat) returns (j: nat)
    requires n <= |d.fields| && r < RequiredBefore(d, n)
    ensures j < n && d.fields[j].htype == Required && RequiredBefore(d, j) == r
  {
    if r < RequiredBefore(d, n - 1) {
      j := RequiredAt(d, r, n - 1);
    } else {
      j := n - 1;
    }
  }

  // ----- What one field adds -----

  /** Whether anything is written for field `i`. */
  predicate Written(f: Field, slot: Slot) {
    match f.htype
    case Required => true
    case Optional => if f.hasSize then slot.Opt? && slot.o.Some? else !IsDefault(f, slot)
    case Repeated => slot.Many? && slot.items != []
    case Oneof => slot.Union? && slot.sel.Some? && slot.sel.value.tag == f.tag
  }

  lemma SelectionStep(d: Descriptor, slots: seq<Slot>, k: nat, i: nat)
    requires k < |slots| && i < |d.fields|
    ensures SelectedBefore(d, slots, k, i + 1) <==>
      SelectedBefore(d, slots, k, i)
      || (slots[k].Union? && slots[k].sel.Some? && SelectedBy(d, slots[k].sel.value.tag, k, i))
  {
    if slots[k].Union? && slots[k].sel.Some? && SelectedBy(d, slots[k].sel.value.tag, k, i) {
      assert SelectedBefore(d, slots, k, i + 1);
    }
  }

  /** One slot, before and after field `i` is read into its own. */
  lemma SlotStep(d: Descriptor, slots: seq<Slot>, cur: seq<Slot>, i: nat, j: nat)
    requires |cur| == |slots| && i < |d.fields| && j < |d.fields| && SlotOf(d, i) < |slots| && SlotOf(d, j) < |slots|
    requires SlotDone(d, slots, cur, i, j) && Written(d.fields[i], slots[SlotOf(d, i)])
    ensures SlotDone(d, slots, cur[SlotOf(d, i) := slots[SlotOf(d, i)]], i + 1, j)
  {
    hide DefaultSlot, IsDefault, SlotOf, SelectedBefore;
    var k := SlotOf(d, i);
    SelectionStep(d, slots, SlotOf(d, j), i);
    if SlotOf(d, j) == k && j != i {
      SharedSlot(d, if j < i then j else i, if j < i then i else j);
    }
  }

  lemma SlotsStep(d: Descriptor, slots: seq<Slot>, cur: seq<Slot>, i: nat)
    requires |cur| == |slots| && i < |d.fields| && SlotOf(d, i) < |slots|
    requires SlotsDone(d, slots, cur, i) && Written(d.fields[i], slots[SlotOf(d, i)])
    ensures SlotsDone(d, slots, cur[SlotOf(d, i) := slots[SlotOf(d, i)]], i + 1)
  {
    hide Written, SelectedBefore;
    var next := cur[SlotOf(d, i) := slots[SlotOf(d, i)]];
    forall j: nat | j < |d.fields|
      ensures SlotOf(d, j) < |slots| && SlotDone(d, slots, next, i + 1, j)
    {
      SlotStep(d, slots, cur, i, j);
    }
    assert SlotsDone(d, slots, next, i + 1);
  }

  lemma SeenStep(d: Descriptor, st: Progress, i: nat)
    requires i < |d.fields| && SeenTo(d, st.seen, i)
    ensures SeenTo(d, MarkSeen(d, st, i).seen, i + 1)
  {
    forall j: nat | j < i + 1
      ensures RankSeen(d, MarkSeen(d, st, i).seen, j)
    {
      assert j < i ==> RankSeen(d, st.seen, j);
    }
  }

  /** A field that is written is read into its slot, and no other slot changes. */
  lemma WrittenStep(d: Descriptor, slots: seq<Slot>, st: Progress, next: Progress, i: nat)
    requires MessageOk(d, slots) && ReadTo(d, slots, st, i) && i < |d.fields|
    requires SlotOf(d, i) < |slots| && Written(d.fields[i], slots[SlotOf(d, i)])
    requires next.slots == st.slots[SlotOf(d, i) := slots[SlotOf(d, i)]] && next.seen == MarkSeen(d, st, i).seen
    requires next.fixed == st.fixed || (FixedCount(d.fields[i]) && next.fixed == Some(i))
    ensures ReadTo(d, slots, next, i + 1)
  {
    hide SlotsDone, SeenTo, Written, MarkSeen, MessageOk;
    SlotsStep(d, slots, st.slots, i);
    SeenStep(d, st, i);
  }

  /** A field that is not written leaves its slot at its default, which is then what the message holds. */
  lemma UnwrittenStep(d: Descriptor, slots: seq<Slot>, st: Progress, i: nat)
    requires DescOk(d) && MessageOk(d, slots) && ReadTo(d, slots, st, i) && i < |d.fields|
    requires !Written(d.fields[i], slots[SlotOf(d, i)])
    ensures ReadTo(d, slots, st, i + 1)
  {
    hide DefaultSlot, IsDefault;
    var k, f := SlotOf(d, i), d.fields[i];
    assert SlotAt(d, slots, i);
    UnwrittenIsDefault(f, slots[k]);
    forall j: nat | j < |d.fields|
      ensures SlotOf(d, j) < |slots| && SlotDone(d, slots, st.slots, i + 1, j)
    {
      assert SlotDone(d, slots, st.slots, i, j);
      SelectionStep(d, slots, SlotOf(d, j), i);
    }
  }

  lemma UnwrittenIsDefault(f: Field, slot: Slot)
    requires FieldOk(f) && SlotOk(f, slot) && !Written(f, slot)
    ensures f.htype != Oneof ==> slot == DefaultSlot(f)
    ensures f.htype == Oneof ==> slot.Union? && (slot.sel.Some? ==> slot.sel.value.tag != f.tag)
  {
    hide IsDefault, ValueOk;
  }

  // ----- Encoding a message that fits succeeds -----

  lemma {:induction false} ValueEncodes(f: Field, v: Value)
    requires ValueOk(f, v)
    ensures EncValue(f, v).ok
    decreases f, 0
  {
    hide EncVarint, LittleEndian, ZigZag, EncWord, StringLength, EncString, EncFields;
    if f.ltype == Submessage {
      FieldsEncode(f.ptr.desc, v.slots, 0);
    }
  }

  lemma {:induction false} ItemsEncode(f: Field, items: seq<Value>, k: nat)
    requires k <= |items| && forall j | 0 <= j < |items| :: ValueOk(f, items[j])
    ensures EncItems(f, items, k).ok && EncTagged(f, items, k).ok
    decreases f, 1, |items| - k
  {
    hide EncValue, ValueOk, EncTag;
    if k < |items| {
      ValueEncodes(f, items[k]);
      ItemsEncode(f, items, k + 1);
    }
  }

  lemma {:induction false} FieldEncodes(f: Field, slot: Slot)
    requires SlotOk(f, slot)
    ensures EncField(f, slot).ok && (!Written(f, slot) ==> EncField(f, slot) == EMPTY)
    decreases f, 2
  {
    hide EncValue, ValueOk, EncTag, EncItems, EncTagged, IsDefault;
    match f.htype
    case Required => ValueEncodes(f, slot.v);
    case Optional =>
      if f.hasSize {
        if slot.o.Some? {
          ValueEncodes(f, slot.o.value);
        }
      } else if !IsDefault(f, slot) {
        ValueEncodes(f, slot.v);
      }
    case Repeated => ItemsEncode(f, slot.items, 0);
    case Oneof =>
      if slot.sel.Some? && slot.sel.value.tag == f.tag {
        ValueEncodes(f, slot.sel.value.value);
      }
  }

  lemma {:induction false} FieldsEncode(d: Descriptor, slots: seq<Slot>, i: nat)
    requires MessageOk(d, slots) && i <= |d.fields|
    ensures EncFields(d, slots, i).ok
    decreases d, |d.fields| - i
  {
    hide EncField, SlotOk;
    if i < |d.fields| {
      assert SlotAt(d, slots, i);
      FieldEncodes(d.fields[i], slots[SlotOf(d, i)]);
      FieldsEncode(d, slots, i + 1);
    }
  }

  // ----- The round trip -----

  lemma {:induction false} ValueDecodes(f: Field, v: Value, tail: Bytes, base: Value)
    requires FieldOk(f) && ValueOk(f, v) && |EncValue(f, v).bytes| < TWO_32
    requires f.ltype == Submessage ==> base == DefaultValue(f)
    ensures EncValue(f, v).ok && DecValue(f, base, EncValue(f, v).bytes + tail) == Some(Read(v, tail))
    decreases f, 0
  {
    hide EncFields, EncString, SplitLength, DecMessage, DefaultSlots, DecVarint, DecVarint32, LittleEndian,
      FromLittleEndian, ZigZag, UnZigZag, StringLength, EncWord;
    ValueEncodes(f, v);
    if f.ltype == Submessage {
      var body := EncFields(f.ptr.desc, v.slots, 0).bytes;
      StringIsShorter(body);
      LengthRoundTrip(body, tail);
      SurvivesRoundTrip(f.ptr.desc, v.slots);
    } else {
      ScalarRoundTrip(f, v, base, tail);
    }
  }

  lemma {:induction false} TaggedDecodes(d: Descriptor, st: Progress, pos: nat, i: nat, items: seq<Value>, n: nat,
      tail: Bytes) returns (next: Progress, at: nat)
    requires DescOk(d) && pos < |d.fields| && i < |d.fields| && SlotOf(d, i) < |st.slots|
    requires var f := d.fields[i];
      && f.htype == Repeated && !Packable(f.ltype) && SlotOk(f, Many(items)) && n <= |items|
      && st.slots[SlotOf(d, i)] == Many(items[..n])
      && (FixedCount(f) && st.fixed != Some(i) ==> n == 0 && FixedFull(d, st))
      && |EncTagged(f, items, n).bytes| < TWO_32
    ensures at < |d.fields| && next.slots == st.slots[SlotOf(d, i) := Many(items)] && next.seen == st.seen
    ensures next.fixed == st.fixed || (FixedCount(d.fields[i]) && next.fixed == Some(i))
    ensures DecLoop(d, st, pos, EncTagged(d.fields[i], items, n).bytes + tail) == DecLoop(d, next, at, tail)
    decreases d, 1, |items| - n
  {
    hide DecLoop, DecValue, EncValue, DefaultValue, EncTag, FixedFull, ValueOk;
    var f, k := d.fields[i], SlotOf(d, i);
    assert FieldOk(f);
    ItemsEncode(f, items, n);
    if n == |items| {
      assert items[..n] == items;
      assert st.slots[k := Many(items)] == st.slots;
      assert [] + tail == tail;
      next, at := st, pos;
    } else {
      var rest := EncTagged(f, items, n + 1).bytes;
      ValueEncodes(f, items[n]);
      ValueDecodes(f, items[n], rest + tail, DefaultValue(f));
      ItemDecodes(d, st, pos, i, items[..n], items[n], rest + tail);
      assert items[..n] + [items[n]] == items[..n + 1];
      assert EncTagged(f, items, n).bytes + tail == EncOne(f, items[n]).bytes + (rest + tail);
      var mid := After(d, st, i, Many(items[..n + 1]));
      next, at := TaggedDecodes(d, mid, i, i, items, n + 1, tail);
      assert mid.slots[k := Many(items)] == st.slots[k := Many(items)];
    }
  }

  /** The value of a field that is not an array. */
  function ValueIn(slot: Slot): Value
    requires slot.Single? || (slot.Opt? && slot.o.Some?) || (slot.Union? && slot.sel.Some?)
  {
    match slot
    case Single(v) => v
    case Opt(o) => o.value
    case Union(sel) => sel.value.value
  }

  lemma WrittenValue(f: Field, slot: Slot)
    requires SlotOk(f, slot) && Written(f, slot) && f.htype != Repeated
    ensures slot.Single? || (slot.Opt? && slot.o.Some?) || (slot.Union? && slot.sel.Some?)
    ensures ValueOk(f, ValueIn(slot)) && Holding(f, ValueIn(slot)) == slot
    ensures EncField(f, slot) == EncOne(f, ValueIn(slot))
  {
    hide ValueOk, IsDefault, EncOne;
  }

  /** The initial slot of a field that is not an array has the shape of a full one, over the default value. */
  lemma InitialBase(f: Field, v: Value)
    requires f.htype != Repeated && f.htype != Oneof
    ensures DefaultSlot(f).Single? == Holding(f, v).Single? && DefaultSlot(f).Opt? == Holding(f, v).Opt?
    ensures BaseOf(f, DefaultSlot(f)) == DefaultValue(f)
  {
    hide DefaultValue;
  }

  lemma OneIsShorter(f: Field, v: Value)
    requires EncValue(f, v).ok
    ensures |EncValue(f, v).bytes| <= |EncOne(f, v).bytes|
  {
    hide EncValue, EncTag;
  }

  lemma {:induction false} SingleDecodes(d: Descriptor, slots: seq<Slot>, i: nat, st: Progress, pos: nat, tail: Bytes)
    returns (next: Progress)
    requires DescOk(d) && MessageOk(d, slots) && i < |d.fields| && pos < |d.fields| && ReadTo(d, slots, st, i)
    requires var f := d.fields[i]; f.htype != Repeated && Written(f, slots[SlotOf(d, i)])
    requires |EncField(d.fields[i], slots[SlotOf(d, i)]).bytes| < TWO_32
    ensures ReadTo(d, slots, next, i + 1)
    ensures DecLoop(d, st, pos, EncField(d.fields[i], slots[SlotOf(d, i)]).bytes + tail) == DecLoop(d, next, i, tail)
    decreases d, 1
  {
    hide DecLoop, DecValue, EncValue, EncField, DefaultValue, DefaultSlot, EncOne, SlotOk, ValueOk, IsDefault;
    var f, k := d.fields[i], SlotOf(d, i);
    assert FieldOk(f) && SlotAt(d, slots, i);
    assert SlotDone(d, slots, st.slots, i, i);
    WrittenValue(f, slots[k]);
    var v := ValueIn(slots[k]);
    ValueEncodes(f, v);
    OneIsShorter(f, v);
    ValueDecodes(f, v, tail, DefaultValue(f));
    if f.htype == Oneof {
      UnionShape(f, slots[k]);
    } else {
      InitialBase(f, v);
    }
    OneDecodes(d, st, pos, i, v, tail);
    next := After(d, st, i, slots[k]);
    WrittenStep(d, slots, st, next, i);
  }

  lemma ArrayEncoding(f: Field, items: seq<Value>)
    requires f.htype == Repeated && SlotOk(f, Many(items)) && items != []
    ensures EncField(f, Many(items)) == EncArray(f, items)
    ensures if Packable(f.ltype) then |EncItems(f, items, 0).bytes| <= |EncArray(f, items).bytes|
      else EncArray(f, items) == EncTagged(f, items, 0)
    ensures EncItems(f, items, 0).ok
  {
    hide EncItems, EncTagged, EncTag, ValueOk;
    ItemsEncode(f, items, 0);
  }

  lemma {:induction false} ArrayDecodes(d: Descriptor, slots: seq<Slot>, i: nat, st: Progress, pos: nat, tail: Bytes)
    returns (next: Progress, at: nat)
    requires DescOk(d) && MessageOk(d, slots) && i < |d.fields| && pos < |d.fields| && ReadTo(d, slots, st, i)
    requires var f := d.fields[i]; f.htype == Repeated && Written(f, slots[SlotOf(d, i)])
    requires |EncField(d.fields[i], slots[SlotOf(d, i)]).bytes| < TWO_32
    ensures at < |d.fields| && ReadTo(d, slots, next, i + 1)
    ensures DecLoop(d, st, pos, EncField(d.fields[i], slots[SlotOf(d, i)]).bytes + tail) == DecLoop(d, next, at, tail)
    decreases d, 2
  {
    hide DecLoop, EncField, EncArray, EncItems, EncTagged, FixedFull, SlotOk, IsDefault;
    var f, k := d.fields[i], SlotOf(d, i);
    var items := slots[k].items;
    assert SlotAt(d, slots, i);
    assert SlotDone(d, slots, st.slots, i, i);
    ReadIsFull(d, slots, st, i);
    ArrayEncoding(f, items);
    ArrayStart(f);
    if Packable(f.ltype) {
      PackedArrayDecodes(d, st, pos, i, items, tail);
      next, at := After(d, st, i, Many(items)), i;
    } else {
      assert items[..0] == [];
      next, at := TaggedDecodes(d, st, pos, i, items, 0, tail);
    }
    WrittenStep(d, slots, st, next, i);
  }

  lemma ArrayStart(f: Field)
    requires f.htype == Repeated
    ensures DefaultSlot(f) == Many([])
  {
  }

  lemma {:induction false} FieldsDecode(d: Descriptor, slots: seq<Slot>, i: nat, st: Progress, pos: nat)
    returns (last: Progress)
    requires DescOk(d) && MessageOk(d, slots) && i <= |d.fields| && (d.fields == [] || pos < |d.fields|)
    requires ReadTo(d, slots, st, i) && |EncFields(d, slots, i).bytes| < TWO_32
    ensures ReadTo(d, slots, last, |d.fields|) && DecLoop(d, st, pos, EncFields(d, slots, i).bytes) == Some(last)
    decreases d, 4, |d.fields| - i
  {
    hide EncField, EncFields, ReadTo, SlotOk, IsDefault, DescOk, DecLoop, MessageOk, Written;
    if i == |d.fields| {
      NothingEncoded(d, slots, d, st, pos);
      last := st;
    } else {
      FirstField(d, slots, i);
      var next, at := NextFieldDecodes(d, slots, i, st, pos, EncFields(d, slots, i + 1).bytes);
      last := FieldsDecode(d, slots, i + 1, next, at);
    }
  }

  lemma {:induction false} NextFieldDecodes(d: Descriptor, slots: seq<Slot>, i: nat, st: Progress, pos: nat,
      rest: Bytes) returns (next: Progress, at: nat)
    requires DescOk(d) && MessageOk(d, slots) && i < |d.fields| && pos < |d.fields|
    requires ReadTo(d, slots, st, i) && SlotOf(d, i) < |slots|
    requires |EncField(d.fields[i], slots[SlotOf(d, i)]).bytes| < TWO_32
    ensures ReadTo(d, slots, next, i + 1) && at < |d.fields|
    ensures DecLoop(d, st, pos, EncField(d.fields[i], slots[SlotOf(d, i)]).bytes + rest) == DecLoop(d, next, at, rest)
    decreases d, 3, 0
  {
    hide EncField, ReadTo, SlotOk, IsDefault, DescOk, DecLoop;
    assert SlotAt(d, slots, i);
    var f, slot := d.fields[i], slots[SlotOf(d, i)];
    FieldEncodes(f, slot);
    next, at := st, pos;
    if !Written(f, slot) {
      UnwrittenStep(d, slots, st, i);
      assert [] + rest == rest;
    } else if f.htype == Repeated {
      next, at := ArrayDecodes(d, slots, i, st, pos, rest);
    } else {
      next := SingleDecodes(d, slots, i, st, pos, rest);
      at := i;
    }
  }

  lemma NothingEncoded(d: Descriptor, slots: seq<Slot>, e: Descriptor, st: Progress, pos: nat)
    requires e.fields == [] || pos < |e.fields|
    ensures DecLoop(e, st, pos, EncFields(d, slots, |d.fields|).bytes) == Some(st)
  {
    hide DecOccurrence, SkipField, FindFrom;
  }

  lemma FirstField(d: Descriptor, slots: seq<Slot>, i: nat)
    requires MessageOk(d, slots) && i < |d.fields|
    ensures SlotOf(d, i) < |slots|
    ensures EncFields(d, slots, i).bytes ==
      EncField(d.fields[i], slots[SlotOf(d, i)]).bytes + EncFields(d, slots, i + 1).bytes
  {
    hide EncField, SlotOk, SlotOf;
    assert SlotAt(d, slots, i);
    FieldEncodes(d.fields[i], slots[SlotOf(d, i)]);
    FieldsEncode(d, slots, i + 1);
  }

  /** Decoding an encoded message gives it back, if no field of it passes for zero that is not. */
  lemma {:induction false} SurvivesRoundTrip(d: Descriptor, slots: seq<Slot>)
    requires DescOk(d) && MessageOk(d, slots) && |EncMessage(d, slots).bytes| < TWO_32
    ensures EncMessage(d, slots).ok && Decode(d, EncMessage(d, slots).bytes) == Some(slots)
    decreases d, 5
  {
    hide EncFields, ReadTo, SlotOk, DefaultSlots, DescOk, DecLoop, Complete;
    FieldsEncode(d, slots, 0);
    MessageSize(d, slots);
    StartReadTo(d, slots);
    var last := FieldsDecode(d, slots, 0, Progress(DefaultSlots(d), {}, None), 0);
    AllRead(d, slots, last);
  }

  lemma MessageSize(d: Descriptor, slots: seq<Slot>)
    requires MessageOk(d, slots)
    ensures |slots| == SlotCount(d)
  {
  }

  /**
   A string that fills its buffer, without room for the terminator, is encoded but not decoded: strings round-trip
   exactly when they are shorter than their buffer.
   */
  lemma StringRoundTripsIfTerminated(f: Field, chars: Bytes, base: Value, rest: Bytes)
    requires f.ltype == StringType && |chars| <= f.dataSize < TWO_32 && forall k | 0 <= k < |chars| :: chars[k] != 0
    ensures EncValue(f, StringV(chars)).ok
    ensures DecValue(f, base, EncValue(f, StringV(chars)).bytes + rest) == Some(Read(StringV(chars), rest))
      <==> |chars| < f.dataSize
  {
    hide EncVarint, DecVarint32, EncString, StringLength;
    FullLength(chars, f.dataSize);
    assert chars[..|chars|] == chars;
    LengthRoundTrip(chars, rest);
    assert (chars + rest)[..|chars|] == chars && (chars + rest)[|chars|..] == rest;
  }
}
