/**
 The stream code behind `PbEncode`: an output stream that writes into a buffer of limited size, or only counts,
 and the encoder that walks a descriptor twice for every submessage, once to size it and once to write it.
 */
module PbEncoder {
  import opened Wrappers
  import opened PbVarint
  import opened PbModel
  import opened PbEncode

  /** What matters of a stream: the bytes counted and the text written. */
  datatype Mark = Mark(count: nat, text: Bytes)

  class OStream {
    /** A sizing stream has no callback: it counts and writes nothing. */
    const sizing: bool
    const buf: array<Byte>
    const maxSize: nat
    var at: nat
    var bytesWritten: nat

    ghost predicate Valid()
      reads this
    {
      sizing || (bytesWritten <= maxSize && at + maxSize <= buf.Length + bytesWritten)
    }

    ghost function Here(): Mark
      requires Valid()
      reads this, buf
    {
      Mark(bytesWritten, if sizing then [] else buf[..at])
    }

    constructor Sizing()
      ensures Valid() && sizing && bytesWritten == 0 && fresh(buf)
    {
      sizing, maxSize, at, bytesWritten := true, 0, 0, 0;
      buf := new Byte[0];
    }

    /** A stream that may write `maxSize` bytes from offset `at` of the buffer on. */
    constructor (buf: array<Byte>, at: nat, maxSize: nat)
      requires at + maxSize <= buf.Length
      ensures Valid() && !sizing && this.buf == buf && this.maxSize == maxSize
      ensures this.at == at && bytesWritten == 0
    {
      sizing, this.buf, this.maxSize, this.at, bytesWritten := false, buf, maxSize, at, 0;
    }

    method Write(data: Bytes) returns (ok: bool)
      requires Valid()
      modifies this, buf
      ensures Valid() && Emitted(old(Here()), Here(), sizing, maxSize, Enc(true, data), ok)
    {
      if !sizing {
        if bytesWritten + |data| > maxSize {
          return false;
        }
        ghost var front := buf[..at];
        for i := 0 to |data|
          invariant at == old(at) && bytesWritten == old(bytesWritten)
          invariant buf[..at + i] == front + data[..i]
        {
          buf[at + i] := data[i];
        }
        at := at + |data|;
      }
      bytesWritten := bytesWritten + |data|;
      return true;
    }

    /** Counts bytes without writing any. */
    method Skip(count: nat)
      requires Valid() && sizing
      modifies this
      ensures Valid() && Here() == Mark(old(bytesWritten) + count, [])
    {
      bytesWritten := bytesWritten + count;
    }
  }

  /**
   What writing `e` does to a stream. A sizing stream counts; a writing stream succeeds exactly when there is no
   error and all bytes fit, and then has appended them; otherwise it has appended a part of them.
   */
  ghost predicate Emitted(a: Mark, b: Mark, sizing: bool, maxSize: nat, e: Enc, ok: bool) {
    if sizing then ok == e.ok && a.text == b.text && (ok ==> b.count == a.count + |e.bytes|)
    else
      && ok == (e.ok && a.count + |e.bytes| <= maxSize)
      && a.text <= b.text && b.text[|a.text|..] <= e.bytes
      && b.count + |a.text| == a.count + |b.text|
      && (ok ==> b.text == a.text + e.bytes)
  }

  lemma EmittedBoth(a: Mark, b: Mark, c: Mark, sizing: bool, maxSize: nat, e: Enc, f: Enc, ok: bool)
    requires Emitted(a, b, sizing, maxSize, e, true) && Emitted(b, c, sizing, maxSize, f, ok)
    ensures Emitted(a, c, sizing, maxSize, Then(e, f), ok)
  {
    if !sizing {
      var tail := c.text[|b.text|..];
      assert c.text == b.text + tail;
      assert c.text[|a.text|..] == e.bytes + tail;
    }
  }

  lemma EmittedFirst(a: Mark, b: Mark, sizing: bool, maxSize: nat, e: Enc, f: Enc)
    requires Emitted(a, b, sizing, maxSize, e, false)
    ensures Emitted(a, b, sizing, maxSize, Then(e, f), false)
  {
  }

  lemma EmittedOk(a: Mark, b: Mark, sizing: bool, maxSize: nat, e: Enc)
    requires Emitted(a, b, sizing, maxSize, e, true)
    ensures e.ok
  {
  }

  lemma EmittedNothing(a: Mark, sizing: bool, maxSize: nat)
    requires sizing || a.count <= maxSize
    ensures Emitted(a, a, sizing, maxSize, EMPTY, true) && Emitted(a, a, sizing, maxSize, FAIL, false)
  {
  }

  // ----- Primitives -----

  method EncodeVarint(s: OStream, value: nat) returns (ok: bool)
    requires s.Valid() && value < TWO_64
    modifies s, s.buf
    ensures s.Valid() && Emitted(old(s.Here()), s.Here(), s.sizing, s.maxSize, Enc(true, EncVarint(value)), ok)
  {
    hide EncVarint, Emitted;
    var bytes := VarintBytes(value);
    ok := s.Write(bytes);
  }

  method EncodeWord(s: OStream, n: int) returns (ok: bool)
    requires s.Valid()
    modifies s, s.buf
    ensures s.Valid() && Emitted(old(s.Here()), s.Here(), s.sizing, s.maxSize, Enc(true, EncWord(n)), ok)
  {
    hide EncVarint, Emitted;
    ok := EncodeVarint(s, n % TWO_64);
  }

  method EncodeTagForField(s: OStream, f: Field) returns (ok: bool)
    requires s.Valid()
    modifies s, s.buf
    ensures s.Valid()
    ensures Emitted(old(s.Here()), s.Here(), s.sizing, s.maxSize, Enc(true, EncTag(WireType(f.ltype), f.tag)), ok)
  {
    hide EncVarint, Emitted;
    ok := EncodeWord(s, f.tag * 8 + WireType(f.ltype));
  }

  method EncodeString(s: OStream, data: Bytes) returns (ok: bool)
    requires s.Valid()
    modifies s, s.buf
    ensures s.Valid() && Emitted(old(s.Here()), s.Here(), s.sizing, s.maxSize, Enc(true, EncString(data)), ok)
  {
    hide EncVarint, Emitted;
    ghost var a := s.Here();
    ok := EncodeWord(s, |data|);
    ghost var b := s.Here();
    if !ok {
      EmittedFirst(a, b, s.sizing, s.maxSize, Enc(true, EncWord(|data|)), Enc(true, data));
      return;
    }
    ok := s.Write(data);
    EmittedBoth(a, b, s.Here(), s.sizing, s.maxSize, Enc(true, EncWord(|data|)), Enc(true, data), ok);
  }

  /** Least significant byte first, one shift per byte. */
  method FixedBytes(value: nat, k: nat) returns (b: Bytes)
    ensures b == LittleEndian(value, k)
  {
    var v := value;
    b := [];
    for i := 0 to k
      invariant |b| == i && LittleEndian(value, k) == b + LittleEndian(v, k - i)
    {
      ghost var front, byte, rest := b, v % 0x100, LittleEndian(v / 0x100, k - i - 1);
      assert LittleEndian(v, k - i) == [byte] + rest;
      b := b + [v % 0x100];
      v := v / 0x100;
      assert front + ([byte] + rest) == b + rest;
    }
  }

  /** The length of a string in a buffer of `maxSize` bytes. */
  method BoundedLength(chars: Bytes, maxSize: nat) returns (size: nat)
    ensures size == StringLength(chars, maxSize)
  {
    size := 0;
    while size < maxSize && size < |chars| && chars[size] != 0
      invariant size <= |chars| && size <= maxSize
      invariant StringLength(chars, maxSize) == size + StringLength(chars[size..], maxSize - size)
    {
      assert chars[size..][1..] == chars[size + 1..];
      size := size + 1;
    }
  }

  // ----- Fields and messages -----

  /** The proto3 zero check, walking submessages field by field. */
  method CheckDefault(f: Field, slot: Slot) returns (zero: bool)
    requires WellFormedField(f)
    ensures zero == IsDefault(f, slot)
    decreases f, 1
  {
    match f.htype
    case Required => return false;
    case Repeated => return slot.Many? && (if f.hasSize then slot.items == [] else ArrayLeadZero(f, slot.items));
    case Oneof => return slot.Union? && slot.sel == None;
    case Optional =>
      if f.hasSize {
        return slot.Opt? && slot.o == None;
      }
      if !slot.Single? {
        return false;
      }
      match f.ltype
      case BytesType => return slot.v.BytesV? && slot.v.data == [];
      case StringType =>
        if !slot.v.StringV? {
          return false;
        }
        var n := BoundedLength(slot.v.chars, f.dataSize);
        return n == 0;
      case FixedLengthBytes => return f.dataSize == 0;
      case Submessage =>
        if !slot.v.MessageV? || !f.ptr.Sub? {
          return false;
        }
        zero := CheckAllDefault(f.ptr.desc, slot.v.slots);
      case _ => return slot.v.IntV? && slot.v.n == 0;
  }

  method CheckAllDefault(d: Descriptor, slots: seq<Slot>) returns (zero: bool)
    requires WellFormed(d)
    ensures zero == AllDefault(d, slots, 0)
    decreases d, 1
  {
    if d.fields == [] {
      return true;
    }
    var iter := new FieldIter.Begin(d);
    var more := true;
    ghost var i := 0;
    while more
      invariant iter.Valid() && iter.desc == d && fresh(iter)
      invariant 0 <= i <= |d.fields| && (if more then iter.pos == i < |d.fields| else i == |d.fields|)
      invariant AllDefault(d, slots, 0) == AllDefault(d, slots, i)
      decreases |d.fields| - i
    {
      assert WellFormedField(d.fields[i]);
      if iter.slot >= |slots| {
        return false;
      }
      var isZero := CheckDefault(d.fields[iter.pos], slots[iter.slot]);
      if !isZero {
        return false;
      }
      more := iter.Next();
      i := i + 1;
    }
    return true;
  }

  method EncodeSubmessage(s: OStream, d: Descriptor, slots: seq<Slot>) returns (ok: bool)
    requires s.Valid() && WellFormed(d)
    modifies s, s.buf
    ensures s.Valid() && Emitted(old(s.Here()), s.Here(), s.sizing, s.maxSize, EncSub(EncMessage(d, slots)), ok)
    decreases d, 3
  {
    hide EncFields, EncWord;
    ghost var a, e := s.Here(), EncMessage(d, slots);
    // First size the message with a stream that writes nothing.
    var sizer := new OStream.Sizing();
    ok := Encode(sizer, d, slots);
    if !ok {
      return false;
    }
    var size := sizer.bytesWritten;
    ghost var prefix := Enc(true, EncWord(size));
    ok := EncodeWord(s, size);
    ghost var b := s.Here();
    if !ok {
      EmittedFirst(a, b, s.sizing, s.maxSize, prefix, e);
      return false;
    }
    if s.sizing {
      s.Skip(size);
      EmittedBoth(a, b, s.Here(), s.sizing, s.maxSize, prefix, e, true);
      return true;
    }
    if s.bytesWritten + size > s.maxSize {
      EmittedBoth(a, b, b, s.sizing, s.maxSize, prefix, e, false);
      return false;
    }
    // Then write it, through a stream that allows exactly that size.
    var sub := new OStream(s.buf, s.at, size);
    var status := Encode(sub, d, slots);
    s.bytesWritten := s.bytesWritten + sub.bytesWritten;
    s.at := sub.at;
    assert status && sub.bytesWritten == size;
    ok := status && sub.bytesWritten == size;
    EmittedBoth(a, b, s.Here(), s.sizing, s.maxSize, prefix, e, true);
  }

  method EncodeValue(s: OStream, f: Field, v: Value) returns (ok: bool)
    requires s.Valid() && WellFormedField(f)
    modifies s, s.buf
    ensures s.Valid() && Emitted(old(s.Here()), s.Here(), s.sizing, s.maxSize, EncValue(f, v), ok)
    decreases f, 1
  {
    hide EncVarint, Emitted, EncFields, EncWord, LittleEndian, EncString, StringLength, ZigZag;
    EmittedNothing(s.Here(), s.sizing, s.maxSize);
    match f.ltype
    case Varint =>
      if !(v.IntV? && SignedFits(v.n, f.dataSize)) {
        return false;
      }
      ok := EncodeWord(s, v.n);
    case UVarint =>
      if !(v.IntV? && UnsignedFits(v.n, f.dataSize)) {
        return false;
      }
      ok := EncodeWord(s, v.n);
    case SVarint =>
      if !(v.IntV? && SignedFits(v.n, f.dataSize)) {
        return false;
      }
      ok := EncodeVarint(s, ZigZag(v.n));
    case Fixed32 =>
      var bytes := FixedBytes(StoredWord(v) % TWO_32, 4);
      ok := s.Write(bytes);
    case Fixed64 =>
      var bytes := FixedBytes(StoredWord(v) % TWO_64, 8);
      ok := s.Write(bytes);
    case BytesType =>
      if !(v.BytesV? && |v.data| + BYTES_HEADER <= f.dataSize) {
        return false;
      }
      ok := EncodeString(s, v.data);
    case StringType =>
      if !v.StringV? {
        return false;
      }
      var size := BoundedLength(v.chars, f.dataSize);
      ok := EncodeString(s, v.chars[..size]);
    case FixedLengthBytes =>
      if !(v.FixedV? && |v.bytes| == f.dataSize) {
        return false;
      }
      ok := EncodeString(s, v.bytes);
    case Submessage =>
      if !(v.MessageV? && f.ptr.Sub?) {
        return false;
      }
      ok := EncodeSubmessage(s, f.ptr.desc, v.slots);
  }

  /** One value behind its tag. */
  method EncodeOne(s: OStream, f: Field, v: Value) returns (ok: bool)
    requires s.Valid() && WellFormedField(f)
    modifies s, s.buf
    ensures s.Valid() && Emitted(old(s.Here()), s.Here(), s.sizing, s.maxSize, EncOne(f, v), ok)
    decreases f, 2
  {
    hide Emitted, EncValue, EncTag;
    ghost var a, tag := s.Here(), Enc(true, EncTag(WireType(f.ltype), f.tag));
    ok := EncodeTagForField(s, f);
    ghost var b := s.Here();
    if !ok {
      EmittedFirst(a, b, s.sizing, s.maxSize, tag, EncValue(f, v));
      return;
    }
    ok := EncodeValue(s, f, v);
    EmittedBoth(a, b, s.Here(), s.sizing, s.maxSize, tag, EncValue(f, v), ok);
  }

  /** Items without tags, as in a packed array. */
  method EncodeItems(s: OStream, f: Field, items: seq<Value>) returns (ok: bool)
    requires s.Valid() && WellFormedField(f)
    modifies s, s.buf
    ensures s.Valid() && Emitted(old(s.Here()), s.Here(), s.sizing, s.maxSize, EncItems(f, items, 0), ok)
    decreases f, 2
  {
    hide Emitted, EncValue, EncItems, Then;
    ghost var a, done := s.Here(), EMPTY;
    EmittedNothing(a, s.sizing, s.maxSize);
    EmptyFirst(EncItems(f, items, 0));
    for i := 0 to |items|
      invariant s.Valid() && Emitted(a, s.Here(), s.sizing, s.maxSize, done, true)
      invariant EncItems(f, items, 0) == Then(done, EncItems(f, items, i))
    {
      ghost var b, e, rest := s.Here(), EncValue(f, items[i]), EncItems(f, items, i + 1);
      ItemsStep(f, items, i);
      ThenAssociates(done, e, rest);
      ok := EncodeValue(s, f, items[i]);
      EmittedBoth(a, b, s.Here(), s.sizing, s.maxSize, done, e, ok);
      done := Then(done, e);
      if !ok {
        EmittedFirst(a, s.Here(), s.sizing, s.maxSize, done, rest);
        return;
      }
    }
    ItemsStep(f, items, |items|);
    EmittedOk(a, s.Here(), s.sizing, s.maxSize, done);
    EmptyLast(done);
    return true;
  }

  /** Items each behind the tag. */
  method EncodeTagged(s: OStream, f: Field, items: seq<Value>) returns (ok: bool)
    requires s.Valid() && WellFormedField(f)
    modifies s, s.buf
    ensures s.Valid() && Emitted(old(s.Here()), s.Here(), s.sizing, s.maxSize, EncTagged(f, items, 0), ok)
    decreases f, 3
  {
    hide Emitted, EncOne, EncTagged, Then;
    ghost var a, done := s.Here(), EMPTY;
    EmittedNothing(a, s.sizing, s.maxSize);
    EmptyFirst(EncTagged(f, items, 0));
    for i := 0 to |items|
      invariant s.Valid() && Emitted(a, s.Here(), s.sizing, s.maxSize, done, true)
      invariant EncTagged(f, items, 0) == Then(done, EncTagged(f, items, i))
    {
      ghost var b, e, rest := s.Here(), EncOne(f, items[i]), EncTagged(f, items, i + 1);
      TaggedStep(f, items, i);
      ThenAssociates(done, e, rest);
      ok := EncodeOne(s, f, items[i]);
      EmittedBoth(a, b, s.Here(), s.sizing, s.maxSize, done, e, ok);
      done := Then(done, e);
      if !ok {
        EmittedFirst(a, s.Here(), s.sizing, s.maxSize, done, rest);
        return;
      }
    }
    TaggedStep(f, items, |items|);
    EmittedOk(a, s.Here(), s.sizing, s.maxSize, done);
    EmptyLast(done);
    return true;
  }

  method EncodeArray(s: OStream, f: Field, items: seq<Value>) returns (ok: bool)
    requires s.Valid() && WellFormedField(f)
    modifies s, s.buf
    ensures s.Valid() && Emitted(old(s.Here()), s.Here(), s.sizing, s.maxSize, EncArray(f, items), ok)
    decreases f, 4
  {
    hide Emitted, EncItems, EncTagged, EncTag, EncWord;
    ghost var a, e := s.Here(), EncItems(f, items, 0);
    EmittedNothing(a, s.sizing, s.maxSize);
    if items == [] {
      return true;
    }
    if |items| > f.arraySize {
      return false;
    }
    if !Packable(f.ltype) {
      ok := EncodeTagged(s, f, items);
      return;
    }
    ghost var tag := Enc(true, EncTag(WT_STRING, f.tag));
    ok := EncodeWord(s, f.tag * 8 + WT_STRING);
    TagIsWord(f.tag);
    ghost var b := s.Here();
    if !ok {
      EmittedFirst(a, b, s.sizing, s.maxSize, tag, EncSub(e));
      return;
    }
    ok := EncodePacked(s, f, items);
    EmittedBoth(a, b, s.Here(), s.sizing, s.maxSize, tag, EncSub(e), ok);
  }

  lemma TagIsWord(tag: nat)
    ensures EncTag(WT_STRING, tag) == EncWord(tag * 8 + WT_STRING)
  {
  }

  /** The length and the items of a packed array; the length is computed, or found by a dry run. */
  method EncodePacked(s: OStream, f: Field, items: seq<Value>) returns (ok: bool)
    requires s.Valid() && WellFormedField(f)
    modifies s, s.buf
    ensures s.Valid() && Emitted(old(s.Here()), s.Here(), s.sizing, s.maxSize, EncSub(EncItems(f, items, 0)), ok)
    decreases f, 3
  {
    hide EncItems, EncTagged, EncTag, EncWord;
    ghost var a, e := s.Here(), EncItems(f, items, 0);
    var size: nat;
    if f.ltype == Fixed32 {
      FixedItemsSize(f, items, 0);
      size := 4 * |items|;
    } else if f.ltype == Fixed64 {
      FixedItemsSize(f, items, 0);
      size := 8 * |items|;
    } else {
      var sizer := new OStream.Sizing();
      ok := EncodeItems(sizer, f, items);
      if !ok {
        return false;
      }
      size := sizer.bytesWritten;
    }
    ghost var prefix := Enc(true, EncWord(size));
    ok := EncodeWord(s, size);
    ghost var b := s.Here();
    if !ok {
      EmittedFirst(a, b, s.sizing, s.maxSize, prefix, e);
      return false;
    }
    if s.sizing {
      s.Skip(size);
      EmittedBoth(a, b, s.Here(), s.sizing, s.maxSize, prefix, e, true);
      return true;
    }
    ok := EncodeItems(s, f, items);
    EmittedBoth(a, b, s.Here(), s.sizing, s.maxSize, prefix, e, ok);
  }

  method EncodeField(s: OStream, f: Field, slot: Slot) returns (ok: bool)
    requires s.Valid() && WellFormedField(f)
    modifies s, s.buf
    ensures s.Valid() && Emitted(old(s.Here()), s.Here(), s.sizing, s.maxSize, EncField(f, slot), ok)
    decreases f, 5
  {
    hide Emitted, EncOne, EncArray, IsDefault;
    EmittedNothing(s.Here(), s.sizing, s.maxSize);
    match f.htype
    case Required =>
      if !slot.Single? {
        return false;
      }
      ok := EncodeOne(s, f, slot.v);
    case Optional =>
      if f.hasSize {
        if !slot.Opt? {
          return false;
        }
        if slot.o.None? {
          return true;
        }
        ok := EncodeOne(s, f, slot.o.value);
      } else {
        if !slot.Single? {
          return false;
        }
        var zero := CheckDefault(f, slot);
        if zero {
          return true;
        }
        ok := EncodeOne(s, f, slot.v);
      }
    case Repeated =>
      if !slot.Many? || (!f.hasSize && |slot.items| != f.arraySize) {
        return false;
      }
      ok := EncodeArray(s, f, slot.items);
    case Oneof =>
      if !slot.Union? {
        return false;
      }
      if slot.sel.None? || slot.sel.value.tag != f.tag {
        return true;
      }
      ok := EncodeOne(s, f, slot.sel.value.value);
  }

  /** Writes all fields of a message in the order of its descriptor. */
  method Encode(s: OStream, d: Descriptor, slots: seq<Slot>) returns (ok: bool)
    requires s.Valid() && WellFormed(d)
    modifies s, s.buf
    ensures s.Valid() && Emitted(old(s.Here()), s.Here(), s.sizing, s.maxSize, EncMessage(d, slots), ok)
    decreases d, 1
  {
    hide Emitted, EncField, EncFields, Then, SlotOf, DataAt, SizeAt, RequiredBefore;
    ghost var a, done, i := s.Here(), EMPTY, 0;
    EmittedNothing(a, s.sizing, s.maxSize);
    EmptyFirst(EncFields(d, slots, 0));
    EmptyLast(EMPTY);
    FieldsStep(d, slots, 0);
    if d.fields == [] {
      return true;
    }
    var iter := new FieldIter.Begin(d);
    var more := true;
    while more
      invariant iter.Valid() && iter.desc == d && fresh(iter)
      invariant s.Valid() && Emitted(a, s.Here(), s.sizing, s.maxSize, done, true)
      invariant 0 <= i <= |d.fields| && (if more then iter.pos == i < |d.fields| else i == |d.fields|)
      invariant EncFields(d, slots, 0) == Then(done, EncFields(d, slots, i))
      decreases |d.fields| - i
    {
      FieldsStep(d, slots, i);
      assert WellFormedField(d.fields[i]);
      ghost var b := s.Here();
      if iter.slot >= |slots| {
        EmittedNothing(b, s.sizing, s.maxSize);
        EmittedBoth(a, b, b, s.sizing, s.maxSize, done, FAIL, false);
        return false;
      }
      ghost var e, rest := EncField(d.fields[i], slots[iter.slot]), EncFields(d, slots, i + 1);
      ThenAssociates(done, e, rest);
      ok := EncodeField(s, d.fields[iter.pos], slots[iter.slot]);
      EmittedBoth(a, b, s.Here(), s.sizing, s.maxSize, done, e, ok);
      done := Then(done, e);
      if !ok {
        EmittedFirst(a, s.Here(), s.sizing, s.maxSize, done, rest);
        return false;
      }
      more := iter.Next();
      i := i + 1;
    }
    FieldsStep(d, slots, |d.fields|);
    EmittedOk(a, s.Here(), s.sizing, s.maxSize, done);
    EmptyLast(done);
    return true;
  }

  /** The size of the encoding, found by counting. */
  method GetEncodedSize(d: Descriptor, slots: seq<Slot>) returns (ok: bool, size: nat)
    requires WellFormed(d)
    ensures ok == EncMessage(d, slots).ok && (ok ==> size == |EncMessage(d, slots).bytes|)
  {
    hide EncFields;
    var s := new OStream.Sizing();
    ok := Encode(s, d, slots);
    size := s.bytesWritten;
  }

  /**
   Sizing equals writing: after sizing a message, writing it into a part of a buffer succeeds exactly when the size was
   found and fits, and then writes as many bytes as were counted, and those of the message.
   */
  method SizeThenEncode(d: Descriptor, slots: seq<Slot>, buf: array<Byte>, at: nat, limit: nat)
    returns (sized: bool, size: nat, ok: bool, written: nat)
    requires WellFormed(d) && at + limit <= buf.Length
    modifies buf
    ensures ok <==> sized && size <= limit
    ensures ok ==> written == size && buf[at..at + size] == EncMessage(d, slots).bytes
    ensures written <= limit && buf[..at] == old(buf[..at])
  {
    hide EncFields;
    sized, size := GetEncodedSize(d, slots);
    var s := new OStream(buf, at, limit);
    ghost var before := s.Here();
    ok := Encode(s, d, slots);
    written := s.bytesWritten;
    assert before.text <= s.Here().text;
    assert buf[..at] == before.text;
    assert ok ==> s.Here().text[|before.text|..] == EncMessage(d, slots).bytes;
  }

  // ----- Laws of `Then` -----

  lemma EmptyFirst(e: Enc)
    ensures Then(EMPTY, e) == e
  {
  }

  lemma EmptyLast(e: Enc)
    requires e.ok
    ensures Then(e, EMPTY) == e
  {
  }

  lemma ThenAssociates(a: Enc, b: Enc, c: Enc)
    ensures Then(a, Then(b, c)) == Then(Then(a, b), c)
  {
  }

  lemma ItemsStep(f: Field, items: seq<Value>, i: nat)
    requires i <= |items|
    ensures EncItems(f, items, i) ==
      if i == |items| then EMPTY else Then(EncValue(f, items[i]), EncItems(f, items, i + 1))
  {
    hide EncValue;
  }

  lemma TaggedStep(f: Field, items: seq<Value>, i: nat)
    requires i <= |items|
    ensures EncTagged(f, items, i) ==
      if i == |items| then EMPTY else Then(EncOne(f, items[i]), EncTagged(f, items, i + 1))
  {
    hide EncValue;
  }

  lemma FieldsStep(d: Descriptor, slots: seq<Slot>, i: nat)
    requires i <= |d.fields|
    ensures EncFields(d, slots, i) ==
      if i == |d.fields| then EMPTY
      else if SlotOf(d, i) >= |slots| then FAIL
      else Then(EncField(d.fields[i], slots[SlotOf(d, i)]), EncFields(d, slots, i + 1))
  {
    hide EncField;
  }
}
