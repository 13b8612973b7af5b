/**
 What nanopb writes for a message (Protocol Buffers Encoding guide, section "Message Structure"): the bytes as
 a function of the descriptor and the stored values. `PbEncoder` holds the stream code that produces them.
 */
module PbEncode {
  import opened Wrappers
  import opened PbVarint
  import opened PbModel

  const WT_VARINT := 0
  const WT_64BIT := 1
  const WT_STRING := 2
  const WT_32BIT := 5

  /** The size of the length word in front of a bytes array, and of an element count. */
  const BYTES_HEADER := 4

  /** The bytes emitted, all of them or up to an error. */
  datatype Enc = Enc(ok: bool, bytes: Bytes)

  const EMPTY := Enc(true, [])
  const FAIL := Enc(false, [])

  /** One after the other, stopping at an error. */
  function Then(a: Enc, b: Enc): Enc {
    if a.ok then Enc(b.ok, a.bytes + b.bytes) else a
  }

  /** The varint of a number cast to 64 bits. */
  function EncWord(n: int): (b: Bytes)
    ensures |b| >= 1
  {
    EncVarint(n % TWO_64)
  }

  function WireType(l: LType): nat {
    match l
    case Varint => WT_VARINT
    case UVarint => WT_VARINT
    case SVarint => WT_VARINT
    case Fixed32 => WT_32BIT
    case Fixed64 => WT_64BIT
    case BytesType => WT_STRING
    case StringType => WT_STRING
    case Submessage => WT_STRING
    case FixedLengthBytes => WT_STRING
  }

  function EncTag(wireType: nat, tag: nat): Bytes { EncWord(tag * 8 + wireType) }

  function EncString(b: Bytes): Bytes { EncWord(|b|) + b }

  predicate IntSize(n: nat) { n == 1 || n == 2 || n == 4 || n == 8 }

  /** Half the range of an integer of so many bytes. */
  function HalfRange(size: nat): nat
    requires IntSize(size)
  {
    match size
    case 1 => 0x80
    case 2 => 0x8000
    case 4 => 0x8000_0000
    case _ => 0x8000_0000_0000_0000
  }

  predicate SignedFits(n: int, size: nat) { IntSize(size) && 0 <= n + HalfRange(size) < 2 * HalfRange(size) }

  predicate UnsignedFits(n: int, size: nat) { IntSize(size) && 0 <= n < 2 * HalfRange(size) }

  /** The part of a string field before its terminator, or all of it if there is none. */
  function StringLength(s: Bytes, maxSize: nat): (n: nat)
    ensures n <= maxSize && n <= |s|
    ensures forall k | 0 <= k < n :: s[k] != 0
    ensures n == maxSize || n == |s| || s[n] == 0
  {
    if maxSize == 0 || s == [] || s[0] == 0 then 0 else 1 + StringLength(s[1..], maxSize - 1)
  }

  // ----- Proto3 defaults -----

  /** Whether item `j` of an array has bytes in the first word of the array. */
  predicate InWord(j: nat, size: nat) { j * size < BYTES_HEADER }

  /** The first `m` bytes of a stored value are zero; of the bytes it does not determine, nothing is asked. */
  predicate ItemLeadZero(f: Field, v: Value, m: int)
    decreases f, 0
  {
    match f.ltype
    case BytesType => v.BytesV? && v.data == []
    case StringType => v.StringV? && StringLength(v.chars, f.dataSize) == 0
    case FixedLengthBytes =>
      f.dataSize == 0 || (v.FixedV? && forall b | 0 <= b < |v.bytes| && b < f.dataSize && b < m :: v.bytes[b] == 0)
    case Submessage => v.MessageV? && f.ptr.Sub? && StructLeadZero(f.ptr.desc, v.slots)
    case _ => v.IntV? && v.n % TWO_32 == 0
  }

  /** The word at the start of an array is zero. */
  predicate ArrayLeadZero(f: Field, items: seq<Value>)
    decreases f, 1
  {
    forall j: nat | j < |items| && InWord(j, f.dataSize) ::
      ItemLeadZero(f, items[j], BYTES_HEADER - j * f.dataSize)
  }

  /** The word at the start of the storage of a field is zero: its flag, count or selector, or else its value. */
  predicate SlotLeadZero(f: Field, slot: Slot)
    decreases f, 2
  {
    match slot
    case Single(v) => ItemLeadZero(f, v, BYTES_HEADER)
    case Opt(o) => o == None
    case Many(items) => if f.hasSize then items == [] else ArrayLeadZero(f, items)
    case Union(sel) => sel == None
  }

  predicate StructLeadZero(d: Descriptor, slots: seq<Slot>)
    decreases d
  {
    d.fields == [] || slots == [] || SlotLeadZero(d.fields[0], slots[0])
  }

  /**
   Whether a field holds its zero value and is therefore not written. An array without a stored count has its count
   read from where it would be, which is the first word of the array itself.
   */
  predicate IsDefault(f: Field, slot: Slot)
    decreases f, 3
  {
    match f.htype
    case Required => false
    case Repeated => slot.Many? && (if f.hasSize then slot.items == [] else ArrayLeadZero(f, slot.items))
    case Oneof => slot.Union? && slot.sel == None
    case Optional =>
      if f.hasSize then slot.Opt? && slot.o == None else slot.Single? && IsZero(f, slot.v)
  }

  predicate IsZero(f: Field, v: Value)
    decreases f, 0
  {
    match f.ltype
    case BytesType => v.BytesV? && v.data == []
    case StringType => v.StringV? && StringLength(v.chars, f.dataSize) == 0
    case FixedLengthBytes => f.dataSize == 0
    case Submessage => v.MessageV? && f.ptr.Sub? && AllDefault(f.ptr.desc, v.slots, 0)
    case _ => v.IntV? && v.n == 0
  }

  predicate AllDefault(d: Descriptor, slots: seq<Slot>, i: nat)
    requires i <= |d.fields|
    decreases d, |d.fields| - i
  {
    i == |d.fields|
    || (SlotOf(d, i) < |slots| && IsDefault(d.fields[i], slots[SlotOf(d, i)]) && AllDefault(d, slots, i + 1))
  }

  // ----- Values -----

  /** Fixed-width fields are copied from storage as they are. */
  function StoredWord(v: Value): int { if v.IntV? then v.n else 0 }

  /** The bytes of one value, without its tag. A value of the wrong kind cannot be stored and is an error here. */
  function EncValue(f: Field, v: Value): Enc
    decreases f, 0
  {
    match f.ltype
    case Varint => if v.IntV? && SignedFits(v.n, f.dataSize) then Enc(true, EncWord(v.n)) else FAIL
    case UVarint => if v.IntV? && UnsignedFits(v.n, f.dataSize) then Enc(true, EncWord(v.n)) else FAIL
    case SVarint => if v.IntV? && SignedFits(v.n, f.dataSize) then Enc(true, EncVarint(ZigZag(v.n))) else FAIL
    case Fixed32 => Enc(true, LittleEndian(StoredWord(v) % TWO_32, 4))
    case Fixed64 => Enc(true, LittleEndian(StoredWord(v) % TWO_64, 8))
    case BytesType =>
      if v.BytesV? && |v.data| + BYTES_HEADER <= f.dataSize then Enc(true, EncString(v.data)) else FAIL
    case StringType =>
      if v.StringV? then Enc(true, EncString(v.chars[..StringLength(v.chars, f.dataSize)])) else FAIL
    case FixedLengthBytes => if v.FixedV? && |v.bytes| == f.dataSize then Enc(true, EncString(v.bytes)) else FAIL
    case Submessage => if v.MessageV? && f.ptr.Sub? then EncSub(EncFields(f.ptr.desc, v.slots, 0)) else FAIL
  }

  /** A submessage with its length in front; nothing is written when sizing it fails. */
  function EncSub(e: Enc): Enc {
    if e.ok then Enc(true, EncString(e.bytes)) else FAIL
  }

  /** Items one after the other, without tags. */
  function EncItems(f: Field, items: seq<Value>, i: nat): Enc
    requires i <= |items|
    decreases f, 1, |items| - i
  {
    if i == |items| then EMPTY else Then(EncValue(f, items[i]), EncItems(f, items, i + 1))
  }

  /** Items each with the tag. */
  function EncTagged(f: Field, items: seq<Value>, i: nat): Enc
    requires i <= |items|
    decreases f, 1, |items| - i
  {
    if i == |items| then EMPTY
    else Then(Then(Enc(true, EncTag(WireType(f.ltype), f.tag)), EncValue(f, items[i])), EncTagged(f, items, i + 1))
  }

  function EncArray(f: Field, items: seq<Value>): Enc
    decreases f, 2
  {
    if items == [] then EMPTY
    else if |items| > f.arraySize then FAIL
    else if Packable(f.ltype) then
      Then(Enc(true, EncTag(WT_STRING, f.tag)), EncSub(EncItems(f, items, 0)))
    else EncTagged(f, items, 0)
  }

  /** One value with its tag. */
  function EncOne(f: Field, v: Value): Enc
    decreases f, 1
  {
    Then(Enc(true, EncTag(WireType(f.ltype), f.tag)), EncValue(f, v))
  }

  function EncField(f: Field, slot: Slot): Enc
    decreases f, 4
  {
    match f.htype
    case Required => if slot.Single? then EncOne(f, slot.v) else FAIL
    case Optional =>
      if f.hasSize then
        if !slot.Opt? then FAIL else if slot.o.None? then EMPTY else EncOne(f, slot.o.value)
      else if !slot.Single? then FAIL
      else if IsDefault(f, slot) then EMPTY
      else EncOne(f, slot.v)
    case Repeated =>
      if !slot.Many? || (!f.hasSize && |slot.items| != f.arraySize) then FAIL else EncArray(f, slot.items)
    case Oneof =>
      if !slot.Union? then FAIL
      else if slot.sel.Some? && slot.sel.value.tag == f.tag then EncOne(f, slot.sel.value.value)
      else EMPTY
  }

  /** The fields of a message from field `i` on. */
  function EncFields(d: Descriptor, slots: seq<Slot>, i: nat): Enc
    requires i <= |d.fields|
    decreases d, |d.fields| - i
  {
    if i == |d.fields| then EMPTY
    else if SlotOf(d, i) >= |slots| then FAIL
    else Then(EncField(d.fields[i], slots[SlotOf(d, i)]), EncFields(d, slots, i + 1))
  }

  function EncMessage(d: Descriptor, slots: seq<Slot>): Enc { EncFields(d, slots, 0) }

  /** The size of a packed array of fixed-width numbers is known without a dry run. */
  lemma {:induction false} FixedItemsSize(f: Field, items: seq<Value>, i: nat)
    requires f.ltype in {Fixed32, Fixed64} && i <= |items|
    ensures EncItems(f, items, i).ok
    ensures |EncItems(f, items, i).bytes| == (|items| - i) * if f.ltype == Fixed32 then 4 else 8
    decreases |items| - i
  {
    hide LittleEndian;
    if i < |items| {
      FixedItemsSize(f, items, i + 1);
    }
  }
}
