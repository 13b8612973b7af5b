/**
 The examples of the Protocol Buffers Encoding guide: what a `1`-numbered integer, a string, an embedded message and a
 packed array look like, byte for byte, and a fixed-width number beside them.
 */
module PbGuide {
  import opened Wrappers
  import opened PbVarint
  import opened PbModel
  import opened PbEncode
  import opened PbDecode
  import opened PbRoundTrip

  function Plain(tag: nat, ltype: LType, size: nat, ptr: Ptr): Field {
    Field(tag, ltype, Required, false, false, 0, 0, size, 0, ptr)
  }

  /** Section "A Simple Message": an integer field `a`, numbered 1. */
  const TEST1 := Descriptor([Plain(1, Varint, 4, Null)])

  /** Section "Strings": a string field `b`, numbered 2. */
  const TEST2 := Descriptor([Plain(2, StringType, 8, Null)])

  /** Section "Embedded Messages": a message field `c`, numbered 3. */
  const TEST3 := Descriptor([Plain(3, Submessage, 4, Sub(TEST1))])

  /** Section "Packed Repeated Fields": an array `d` of integers, numbered 4. */
  const TEST4 := Descriptor([Field(4, Varint, Repeated, false, true, 0, 0, 4, 3, Null)])

  /** A number of 32 bits, numbered 1. */
  const FIXED := Descriptor([Plain(1, Fixed32, 4, Null)])

  const TESTING: Bytes := [0x74, 0x65, 0x73, 0x74, 0x69, 0x6e, 0x67]

  lemma Varints()
    ensures EncVarint(150) == [0x96, 0x01] && EncVarint(270) == [0x8e, 0x02]
    ensures EncVarint(86942) == [0x9e, 0xa7, 0x05]
  {
    assert EncVarint(1) == [0x01] && EncVarint(2) == [0x02] && EncVarint(5) == [0x05];
    assert EncVarint(679) == [0xa7, 0x05];
  }

  /** A field that is the only one of its message and has to be written. */
  lemma OnlyField(f: Field, v: Value)
    requires f.htype == Required && EncValue(f, v).ok
    ensures EncMessage(Descriptor([f]), [Single(v)]) ==
      Enc(true, EncTag(WireType(f.ltype), f.tag) + EncValue(f, v).bytes)
  {
    hide EncValue, EncTag;
    var d, slots := Descriptor([f]), [Single(v)];
    assert SlotOf(d, 0) == 0 && EncFields(d, slots, 1) == EMPTY;
    assert EncFields(d, slots, 0) == Then(EncField(f, slots[0]), EMPTY);
    assert EncOne(f, v).bytes + [] == EncOne(f, v).bytes;
  }

  lemma SimpleMessage()
    ensures EncMessage(TEST1, [Single(IntV(150))]) == Enc(true, [0x08, 0x96, 0x01])
  {
    Varints();
    OnlyField(TEST1.fields[0], IntV(150));
    assert EncTag(WT_VARINT, 1) == [0x08];
  }

  lemma Strings()
    ensures EncMessage(TEST2, [Single(StringV(TESTING))]) == Enc(true, [0x12, 0x07] + TESTING)
  {
    FullLength(TESTING, 8);
    assert TESTING[..7] == TESTING;
    OnlyField(TEST2.fields[0], StringV(TESTING));
    assert EncTag(WT_STRING, 2) == [0x12] && EncWord(7) == [0x07];
  }

  lemma Embedded()
    ensures EncMessage(TEST3, [Single(MessageV([Single(IntV(150))]))]) ==
      Enc(true, [0x1a, 0x03, 0x08, 0x96, 0x01])
  {
    SimpleMessage();
    OnlyField(TEST3.fields[0], MessageV([Single(IntV(150))]));
    assert EncTag(WT_STRING, 3) == [0x1a] && EncWord(3) == [0x03];
  }

  lemma PackedArray()
    ensures EncMessage(TEST4, [Many([IntV(3), IntV(270), IntV(86942)])]) ==
      Enc(true, [0x22, 0x06, 0x03, 0x8e, 0x02, 0x9e, 0xa7, 0x05])
  {
    hide EncVarint;
    var f, items := TEST4.fields[0], [IntV(3), IntV(270), IntV(86942)];
    PackedItems(f, items);
    SmallWords();
    var slots := [Many(items)];
    assert SlotOf(TEST4, 0) == 0 && EncFields(TEST4, slots, 1) == EMPTY;
    var b: Bytes := [0x22, 0x06, 0x03, 0x8e, 0x02, 0x9e, 0xa7, 0x05];
    assert EncArray(f, items).bytes == b;
    assert EncFields(TEST4, slots, 0) == Then(EncField(f, slots[0]), EMPTY);
    assert b + [] == b;
  }

  lemma SmallWords()
    ensures EncTag(WT_STRING, 4) == [0x22] && EncWord(6) == [0x06]
  {
  }

  lemma PackedItems(f: Field, items: seq<Value>)
    requires f == TEST4.fields[0] && items == [IntV(3), IntV(270), IntV(86942)]
    ensures EncItems(f, items, 0) == Enc(true, [0x03, 0x8e, 0x02, 0x9e, 0xa7, 0x05])
  {
    Varints();
    assert EncVarint(3) == [0x03];
    assert EncItems(f, items, 3) == EMPTY;
    assert EncItems(f, items, 2) == Enc(true, [0x9e, 0xa7, 0x05]);
    assert EncItems(f, items, 1) == Enc(true, [0x8e, 0x02, 0x9e, 0xa7, 0x05]);
  }

  lemma FixedWidth()
    ensures EncMessage(FIXED, [Single(IntV(7))]) == Enc(true, [0x0d, 0x07, 0x00, 0x00, 0x00])
  {
    OnlyField(FIXED.fields[0], IntV(7));
    assert EncTag(WT_32BIT, 1) == [0x0d];
    assert LittleEndian(0, 1) == [0] && LittleEndian(0, 2) == [0, 0] && LittleEndian(0, 3) == [0, 0, 0];
    assert LittleEndian(7, 4) == [7, 0, 0, 0];
  }
}
