/**
 Fields that occur more than once (Protocol Buffers Encoding guide, section "Last One Wins"): encoded messages that are
 put one behind the other are merged, so are the occurrences of a submessage, and of a number or a string, or of the
 members of a union, the last one counts.
 */
module PbMerge {
  import opened Wrappers
  import opened PbVarint
  import opened PbModel
  import opened PbEncode
  import opened PbDecode
  import opened PbRoundTrip
  import opened PbUnknown
  import opened PbEvolution

  // ----- One input behind the other -----

  /** The input consists of fields, and there is no zero tag that ends the message early. */
  predicate Whole(d: Descriptor, st: Progress, pos: nat, a: Bytes)
    requires d.fields == [] || pos < |d.fields|
  {
    Boundary(d, st, pos, a, |a|)
  }

  /** Having read the first input, the decoder goes on with the second. */
  lemma {:induction false} ReadsOn(d: Descriptor, st: Progress, pos: nat, a: Bytes, b: Bytes)
    returns (mid: Progress, at: nat)
    requires (d.fields == [] || pos < |d.fields|) && Whole(d, st, pos, a)
    ensures d.fields == [] || at < |d.fields|
    ensures DecLoop(d, st, pos, a) == Some(mid) && DecLoop(d, st, pos, a + b) == DecLoop(d, mid, at, b)
    decreases |a|
  {
    hide RoundOf;
    if a == [] {
      assert RoundOf(d, st, pos, a) == Ends by { EmptyEnds(d, st, pos); }
      assert a + b == b;
      mid, at := st, pos;
    } else {
      var r := RoundOf(d, st, pos, a);
      RoundIsLocal(d, st, pos, a, r.rest + b);
      RoundSuffix(d, st, pos, a);
      assert Front(a, |r.rest|) + (r.rest + b) == a + b;
      mid, at := ReadsOn(d, r.next, r.at, r.rest, b);
    }
  }

  lemma EmptyEnds(d: Descriptor, st: Progress, pos: nat)
    requires d.fields == [] || pos < |d.fields|
    ensures RoundOf(d, st, pos, []) == Ends
  {
  }

  // ----- What has been seen before does not matter -----

  /** No array without a stored count, whose items would have to come in one run. */
  predicate NoFixedCounts(d: Descriptor) {
    forall i | 0 <= i < |d.fields| :: !FixedCount(d.fields[i])
  }

  /** The same storage, and at least as many required fields seen. */
  predicate SeenMore(a: Progress, b: Progress) { b == a.(seen := b.seen) && a.seen <= b.seen && a.fixed.None? }

  lemma OccurrenceAlike(d: Descriptor, a: Progress, b: Progress, i: nat, wireType: nat, s: Bytes)
    requires NoFixedCounts(d) && SeenMore(a, b) && i < |d.fields| && DecOccurrence(d, a, i, wireType, s).Some?
    ensures DecOccurrence(d, b, i, wireType, s).Some?
    ensures var (x, rest) := DecOccurrence(d, a, i, wireType, s).value;
      var (y, left) := DecOccurrence(d, b, i, wireType, s).value;
      SeenMore(x, y) && left == rest
  {
    hide DecField;
  }

  lemma RoundAlike(d: Descriptor, a: Progress, b: Progress, pos: nat, s: Bytes)
    requires NoFixedCounts(d) && SeenMore(a, b) && (d.fields == [] || pos < |d.fields|)
    requires !RoundOf(d, a, pos, s).Fails?
    ensures var x, y := RoundOf(d, a, pos, s), RoundOf(d, b, pos, s);
      && (x.Ends? ==> y.Ends?)
      && (x.GoesOn? ==> y.GoesOn? && SeenMore(x.next, y.next) && y.at == x.at && y.rest == x.rest)
  {
    hide DecOccurrence, DecVarint32, FindFrom, SkipField;
    if s != [] && DecVarint32(s).Some? && DecVarint32(s).value.value != 0 && d.fields != [] {
      var got := DecVarint32(s).value;
      var found := FindFrom(d, pos, 0, got.value / 8);
      if found.Some? {
        OccurrenceAlike(d, a, b, found.value, got.value % 8, got.rest);
      }
    }
  }

  lemma {:induction false} LoopAlike(d: Descriptor, a: Progress, b: Progress, pos: nat, s: Bytes)
    requires NoFixedCounts(d) && SeenMore(a, b) && (d.fields == [] || pos < |d.fields|) && DecLoop(d, a, pos, s).Some?
    ensures DecLoop(d, b, pos, s).Some? && SeenMore(DecLoop(d, a, pos, s).value, DecLoop(d, b, pos, s).value)
    decreases |s|
  {
    hide RoundOf;
    RoundAlike(d, a, b, pos, s);
    var x := RoundOf(d, a, pos, s);
    if x.GoesOn? {
      LoopAlike(d, x.next, RoundOf(d, b, pos, s).next, x.at, x.rest);
    }
  }

  /** Without arrays of fixed count, none is being filled. */
  lemma {:induction false} NothingFilling(d: Descriptor, st: Progress, pos: nat, s: Bytes)
    requires NoFixedCounts(d) && st.fixed.None? && (d.fields == [] || pos < |d.fields|) && DecLoop(d, st, pos, s).Some?
    ensures DecLoop(d, st, pos, s).value.fixed.None?
    decreases |s|
  {
    hide RoundOf;
    RoundAlike(d, st, st, pos, s);
    var x := RoundOf(d, st, pos, s);
    if x.GoesOn? {
      NothingFilling(d, x.next, x.at, x.rest);
    }
  }

  /** Decoding one encoded message into what another left is decoding the two one behind the other. */
  lemma ConcatenationMerges(d: Descriptor, slots: seq<Slot>, a: Bytes, b: Bytes)
    requires DistinctTags(d) && NoFixedCounts(d) && Whole(d, Progress(slots, {}, None), 0, a)
    requires DecMessage(d, slots, a).Some? && DecMessage(d, DecMessage(d, slots, a).value, b).Some?
    ensures DecMessage(d, slots, a + b) == DecMessage(d, DecMessage(d, slots, a).value, b)
  {
    hide DecLoop, RoundOf, Whole, NoFixedCounts;
    var st := Progress(slots, {}, None);
    var mid, at := ReadsOn(d, st, 0, a, b);
    NothingFilling(d, st, 0, a);
    var anew := Progress(mid.slots, {}, None);
    PositionIsIrrelevant(d, mid, at, 0, b);
    LoopAlike(d, anew, mid, 0, b);
  }

  // ----- One field more than once -----

  /** The bytes of one occurrence of a field: its tag and a body. */
  function Occurrence(f: Field, body: Bytes): Bytes { EncTag(WireType(f.ltype), f.tag) + body }

  /** The slot has the shape of its field. */
  predicate HasShape(f: Field, slot: Slot) {
    match f.htype
    case Required => slot.Single?
    case Optional => if f.hasSize then slot.Opt? else slot.Single?
    case Repeated => slot.Many?
    case Oneof => slot.Union?
  }

  /** Of a field that is no array, the last value read stays, whatever the field before that shared its slot. */
  lemma AfterTwice(d: Descriptor, st: Progress, i: nat, v: Slot, j: nat, w: Slot)
    requires i < |d.fields| && j < |d.fields| && SlotOf(d, i) == SlotOf(d, j) < |st.slots|
    requires d.fields[i].htype != Repeated && d.fields[j].htype != Repeated && (i == j || d.fields[i].htype == Oneof)
    ensures After(d, After(d, st, i, v), j, w) == After(d, st, j, w)
  {
    var k := SlotOf(d, i);
    assert st.slots[k := v][k := w] == st.slots[k := w];
  }

  /** The two pieces of a submessage, each with its tag, are read as one with all of its bytes. */
  lemma SubmessagesMerge(d: Descriptor, st: Progress, pos: nat, i: nat, a: Bytes, b: Bytes, x: seq<Slot>, y: seq<Slot>,
      tail: Bytes)
    requires DescOk(d) && pos < |d.fields| && i < |d.fields| && SlotOf(d, i) < |st.slots|
    requires var f := d.fields[i]; var base := BaseOf(f, st.slots[SlotOf(d, i)]);
      && (f.htype == Required || f.htype == Optional) && f.ltype == Submessage && f.ptr.Sub?
      && HasShape(f, st.slots[SlotOf(d, i)]) && base.MessageV? && NoFixedCounts(f.ptr.desc)
      && Whole(f.ptr.desc, Progress(base.slots, {}, None), 0, a)
      && DecMessage(f.ptr.desc, base.slots, a) == Some(x) && DecMessage(f.ptr.desc, x, b) == Some(y)
    requires |a| + |b| < TWO_32
    ensures var f := d.fields[i];
      && DecLoop(d, st, pos, Occurrence(f, EncString(a)) + (Occurrence(f, EncString(b)) + tail))
         == DecLoop(d, st, pos, Occurrence(f, EncString(a + b)) + tail)
         == DecLoop(d, After(d, st, i, Holding(f, MessageV(y))), i, tail)
  {
    hide DecLoop, DecMessage, Whole, NoFixedCounts, EncString, SplitLength, EncTag, DefaultValue, DecValue;
    var f, k := d.fields[i], SlotOf(d, i);
    var base := BaseOf(f, st.slots[k]);
    assert FieldOk(f);
    var more := Occurrence(f, EncString(b)) + tail;
    SubmessageReads(f, base, a, x, more);
    OneReads(d, st, pos, i, EncString(a), MessageV(x), more);
    var mid := After(d, st, i, Holding(f, MessageV(x)));
    assert BaseOf(f, mid.slots[k]) == MessageV(x);
    SubmessageReads(f, MessageV(x), b, y, tail);
    OneReads(d, mid, i, i, EncString(b), MessageV(y), tail);
    AfterTwice(d, st, i, Holding(f, MessageV(x)), i, Holding(f, MessageV(y)));
    ConcatenationMerges(f.ptr.desc, base.slots, a, b);
    SubmessageReads(f, base, a + b, y, tail);
    OneReads(d, st, pos, i, EncString(a + b), MessageV(y), tail);
  }

  lemma SubmessageReads(f: Field, base: Value, a: Bytes, x: seq<Slot>, tail: Bytes)
    requires f.ltype == Submessage && f.ptr.Sub? && f.htype != Repeated && base.MessageV? && |a| < TWO_32
    requires DecMessage(f.ptr.desc, base.slots, a) == Some(x)
    ensures DecValue(f, base, EncString(a) + tail) == Some(Read(MessageV(x), tail))
  {
    hide DecMessage, EncString, SplitLength;
    LengthRoundTrip(a, tail);
  }

  /** Of a number or a string that comes twice, the last one counts. */
  lemma LastScalarWins(d: Descriptor, st: Progress, pos: nat, i: nat, v: Value, w: Value, tail: Bytes)
    requires DescOk(d) && pos < |d.fields| && i < |d.fields| && SlotOf(d, i) < |st.slots|
    requires var f := d.fields[i];
      && (f.htype == Required || f.htype == Optional) && f.ltype != Submessage && ValueOk(f, v) && ValueOk(f, w)
      && HasShape(f, st.slots[SlotOf(d, i)])
      && |EncValue(f, v).bytes| < TWO_32 && |EncValue(f, w).bytes| < TWO_32
    ensures var f := d.fields[i];
      && DecLoop(d, st, pos, EncOne(f, v).bytes + (EncOne(f, w).bytes + tail))
         == DecLoop(d, st, pos, EncOne(f, w).bytes + tail)
         == DecLoop(d, After(d, st, i, Holding(f, w)), i, tail)
  {
    hide DecLoop, EncValue, DefaultValue, DecValue, ValueOk, EncOne;
    var f := d.fields[i];
    ScalarReads(d, st, pos, i, v, EncOne(f, w).bytes + tail);
    var mid := After(d, st, i, Holding(f, v));
    ScalarReads(d, mid, i, i, w, tail);
    AfterTwice(d, st, i, Holding(f, v), i, Holding(f, w));
    ScalarReads(d, st, pos, i, w, tail);
  }

  lemma ScalarReads(d: Descriptor, st: Progress, pos: nat, i: nat, v: Value, tail: Bytes)
    requires DescOk(d) && pos < |d.fields| && i < |d.fields| && SlotOf(d, i) < |st.slots|
    requires var f := d.fields[i];
      && (f.htype == Required || f.htype == Optional) && f.ltype != Submessage && ValueOk(f, v)
      && HasShape(f, st.slots[SlotOf(d, i)]) && |EncValue(f, v).bytes| < TWO_32
    ensures var f := d.fields[i];
      DecLoop(d, st, pos, EncOne(f, v).bytes + tail) == DecLoop(d, After(d, st, i, Holding(f, v)), i, tail)
    ensures HasShape(d.fields[i], Holding(d.fields[i], v))
  {
    hide DecLoop, EncValue, DefaultValue, DecValue, ValueOk, EncOne;
    var f := d.fields[i];
    ValueEncodes(f, v);
    ScalarRoundTrip(f, v, BaseOf(f, st.slots[SlotOf(d, i)]), tail);
    OneDecodes(d, st, pos, i, v, tail);
  }

  /** Of the members of a union, the last one that comes counts, and nothing of an earlier one is left. */
  lemma LastMemberWins(d: Descriptor, st: Progress, pos: nat, i: nat, v: Value, j: nat, w: Value, tail: Bytes)
    requires DescOk(d) && pos < |d.fields| && i < |d.fields| && j < |d.fields| && SlotOf(d, i) == SlotOf(d, j)
    requires SlotOf(d, i) < |st.slots| && st.slots[SlotOf(d, i)].Union?
    requires var f, g := d.fields[i], d.fields[j];
      && f.htype == Oneof && g.htype == Oneof && ValueOk(f, v) && ValueOk(g, w)
      && |EncValue(f, v).bytes| < TWO_32 && |EncValue(g, w).bytes| < TWO_32
    ensures var f, g := d.fields[i], d.fields[j];
      && DecLoop(d, st, pos, EncOne(f, v).bytes + (EncOne(g, w).bytes + tail))
         == DecLoop(d, After(d, st, j, Union(Some(Member(g.tag, w)))), j, tail)
      && DecLoop(d, st, pos, EncOne(g, w).bytes + tail)
         == DecLoop(d, After(d, st, j, Union(Some(Member(g.tag, w)))), j, tail)
  {
    hide DecLoop, EncValue, DefaultValue, DecValue, ValueOk, EncOne;
    var f, g := d.fields[i], d.fields[j];
    MemberReads(d, st, pos, i, v, EncOne(g, w).bytes + tail);
    var mid := After(d, st, i, Holding(f, v));
    MemberReads(d, mid, i, j, w, tail);
    AfterTwice(d, st, i, Holding(f, v), j, Holding(g, w));
    MemberReads(d, st, pos, j, w, tail);
  }

  lemma MemberReads(d: Descriptor, st: Progress, pos: nat, i: nat, v: Value, tail: Bytes)
    requires DescOk(d) && pos < |d.fields| && i < |d.fields| && SlotOf(d, i) < |st.slots|
    requires var f := d.fields[i];
      f.htype == Oneof && ValueOk(f, v) && st.slots[SlotOf(d, i)].Union? && |EncValue(f, v).bytes| < TWO_32
    ensures var f := d.fields[i];
      DecLoop(d, st, pos, EncOne(f, v).bytes + tail) == DecLoop(d, After(d, st, i, Holding(f, v)), i, tail)
  {
    hide DecLoop, EncValue, DefaultValue, DecValue, ValueOk, EncOne;
    var f := d.fields[i];
    assert FieldOk(f);
    ValueDecodes(f, v, tail, DefaultValue(f));
    OneDecodes(d, st, pos, i, v, tail);
  }
}
