/**
 Fields that are not in the descriptor are transparent to the nanopb decoder: inserted between fields, they
 change nothing. This rests on the decoder reading each item from its own bytes only, whatever follows.
 */
module PbUnknown {
  import opened Wrappers
  import opened PbVarint
  import opened PbModel
  import opened PbEncode
  import opened PbDecode

  /** The bytes of `s` before its suffix of length `n`. */
  function Front(s: Bytes, n: nat): Bytes
    requires n <= |s|
  {
    s[..|s| - n]
  }

  // ----- Every decoder reads only its own bytes -----

  lemma {:induction false} VarintFromIsLocal(s: Bytes, k: nat, lo: nat, t: Bytes)
    requires DecVarintFrom(s, k, lo).Some?
    ensures var got := DecVarintFrom(s, k, lo).value;
      DecVarintFrom(Front(s, |got.rest|) + t, k, lo) == Some(Got(got.value, t))
    decreases |s|
  {
    hide BitOr, Word64, Shl, Payload;
    var got := DecVarintFrom(s, k, lo).value;
    var u := Front(s, |got.rest|) + t;
    assert u[0] == s[0];
    if s[0] >= 0x80 {
      var ored := BitOr(lo, Word64(Shl(Payload(s[0]), k)));
      VarintFromIsLocal(s[1..], k + 7, ored, t);
      assert u[1..] == Front(s[1..], |got.rest|) + t;
    } else {
      assert u[1..] == t;
    }
  }

  lemma VarintIsLocal(s: Bytes, t: Bytes)
    requires DecVarint(s).Some?
    ensures var got := DecVarint(s).value; DecVarint(Front(s, |got.rest|) + t) == Some(Got(got.value, t))
  {
    VarintFromIsLocal(s, 0, 0, t);
  }

  lemma {:induction false} Varint32MoreIsLocal(s: Bytes, k: nat, lo: nat, t: Bytes)
    requires DecVarint32More(s, k, lo).Some?
    ensures var got := DecVarint32More(s, k, lo).value;
      DecVarint32More(Front(s, |got.rest|) + t, k, lo) == Some(Got(got.value, t))
    decreases |s|
  {
    hide NarrowByte, NextPos;
    var got := DecVarint32More(s, k, lo).value;
    var u := Front(s, |got.rest|) + t;
    assert u[0] == s[0];
    if s[0] >= 0x80 {
      Varint32MoreIsLocal(s[1..], NextPos(k), NarrowByte(s[0], k, lo).value, t);
      assert u[1..] == Front(s[1..], |got.rest|) + t;
    } else {
      assert u[1..] == t;
    }
  }

  lemma Varint32IsLocal(s: Bytes, t: Bytes)
    requires DecVarint32(s).Some?
    ensures var got := DecVarint32(s).value; DecVarint32(Front(s, |got.rest|) + t) == Some(Got(got.value, t))
  {
    hide DecVarint32More, Payload;
    var got := DecVarint32(s).value;
    var u := Front(s, |got.rest|) + t;
    assert u[0] == s[0];
    if s[0] >= 0x80 {
      Varint32MoreIsLocal(s[1..], 7, Payload(s[0]), t);
      assert u[1..] == Front(s[1..], |got.rest|) + t;
    } else {
      assert u[1..] == t;
    }
  }

  /** A length and so many bytes, in front of anything. */
  lemma LengthIsLocal(s: Bytes, n: nat, t: Bytes)
    requires DecVarint32(s).Some? && n <= |DecVarint32(s).value.rest|
    ensures var got := DecVarint32(s).value; var rest := got.rest[n..];
      |rest| <= |s| && DecVarint32(Front(s, |rest|) + t) == Some(Got(got.value, got.rest[..n] + t))
  {
    hide DecVarint32;
    var got := DecVarint32(s).value;
    var rest := got.rest[n..];
    Varint32IsLocal(s, got.rest[..n] + t);
    assert s == Front(s, |got.rest|) + got.rest;
    assert Front(s, |rest|) + t == Front(s, |got.rest|) + (got.rest[..n] + t);
  }

  lemma SplitIsLocal(s: Bytes, t: Bytes)
    requires SplitLength(s).Some?
    ensures var split := SplitLength(s).value;
      |split.rest| <= |s| && SplitLength(Front(s, |split.rest|) + t) == Some(Split(split.inner, t))
  {
    hide DecVarint32;
    var got := DecVarint32(s).value;
    LengthIsLocal(s, got.value, t);
    assert (got.rest[..got.value] + t)[..got.value] == got.rest[..got.value];
    assert (got.rest[..got.value] + t)[got.value..] == t;
  }

  lemma ValueIsLocal(f: Field, base: Value, s: Bytes, t: Bytes)
    requires DecValue(f, base, s).Some?
    ensures var read := DecValue(f, base, s).value;
      DecValue(f, base, Front(s, |read.rest|) + t) == Some(Read(read.v, t))
  {
    hide DecVarint, DecVarint32, SplitLength, DecMessage, DefaultSlots, FromLittleEndian, SignedOf, UnZigZag, Word64,
      Zeros;
    match f.ltype
    case Varint => VarintIsLocal(s, t);
    case UVarint => VarintIsLocal(s, t);
    case SVarint => VarintIsLocal(s, t);
    case Fixed32 => FixedIsLocal(s, 4, t);
    case Fixed64 => FixedIsLocal(s, 8, t);
    case BytesType => BytesAreLocal(s, DecVarint32(s).value.value, t);
    case StringType => BytesAreLocal(s, DecVarint32(s).value.value, t);
    case FixedLengthBytes =>
      if DecVarint32(s).value.value == 0 {
        Varint32IsLocal(s, t);
      } else {
        BytesAreLocal(s, DecVarint32(s).value.value, t);
      }
    case Submessage => SplitIsLocal(s, t);
  }

  lemma FixedIsLocal(s: Bytes, n: nat, t: Bytes)
    requires n <= |s|
    ensures var u := Front(s, |s[n..]|) + t; |u| >= n && u[..n] == s[..n] && u[n..] == t
  {
  }

  lemma BytesAreLocal(s: Bytes, n: nat, t: Bytes)
    requires DecVarint32(s).Some? && n <= |DecVarint32(s).value.rest|
    ensures var got := DecVarint32(s).value; var rest := got.rest[n..];
      && |rest| <= |s| && DecVarint32(Front(s, |rest|) + t) == Some(Got(got.value, got.rest[..n] + t))
      && (got.rest[..n] + t)[..n] == got.rest[..n] && (got.rest[..n] + t)[n..] == t
  {
    hide DecVarint32;
    LengthIsLocal(s, n, t);
  }

  lemma FieldIsLocal(f: Field, slot: Slot, wireType: nat, s: Bytes, t: Bytes)
    requires DecField(f, slot, wireType, s).Some?
    ensures var stored := DecField(f, slot, wireType, s).value;
      DecField(f, slot, wireType, Front(s, |stored.rest|) + t) == Some(Stored(stored.slot, t))
  {
    hide DecValue, DecPacked, SplitLength, DefaultValue;
    match f.htype
    case Required => ValueIsLocal(f, slot.v, s, t);
    case Optional =>
      if f.hasSize {
        ValueIsLocal(f, if slot.o.Some? then slot.o.value else DefaultValue(f), s, t);
      } else {
        ValueIsLocal(f, slot.v, s, t);
      }
    case Repeated =>
      if wireType == WT_STRING && Packable(f.ltype) {
        SplitIsLocal(s, t);
      } else {
        ValueIsLocal(f, DefaultValue(f), s, t);
      }
    case Oneof => ValueIsLocal(f, DefaultValue(f), s, t);
  }

  lemma OccurrenceIsLocal(d: Descriptor, st: Progress, i: nat, wireType: nat, s: Bytes, t: Bytes)
    requires i < |d.fields| && DecOccurrence(d, st, i, wireType, s).Some?
    ensures var (next, rest) := DecOccurrence(d, st, i, wireType, s).value;
      DecOccurrence(d, st, i, wireType, Front(s, |rest|) + t) == Some((next, t))
  {
    hide DecField, StartFixed, MarkSeen;
    var started := StartFixed(d, st, i).value;
    FieldIsLocal(d.fields[i], started.slots[SlotOf(d, i)], wireType, s, t);
  }

  // ----- Skipping -----

  /** The bytes of a value of the wire type, and nothing else. */
  predicate WellFormedValue(wireType: nat, p: Bytes) {
    if wireType == WT_VARINT then EndsExactly(p)
    else if wireType == WT_64BIT then |p| == 8
    else if wireType == WT_STRING then DecVarint32(p).Some? && |DecVarint32(p).value.rest| == DecVarint32(p).value.value
    else wireType == WT_32BIT && |p| == 4
  }

  /** Only the last byte has its top bit clear. */
  predicate EndsExactly(p: Bytes) {
    p != [] && p[|p| - 1] < 0x80 && forall k | 0 <= k < |p| - 1 :: p[k] >= 0x80
  }

  /** Skipping consumes exactly the bytes of the value. */
  lemma SkipConsumesExactly(wireType: nat, p: Bytes, rest: Bytes)
    requires WellFormedValue(wireType, p)
    ensures SkipField(wireType, p + rest) == Some(rest)
  {
    hide DecVarint32, SkipVarint;
    if wireType == WT_VARINT {
      SkipVarintExactly(p, rest);
    } else if wireType == WT_STRING {
      var got := DecVarint32(p).value;
      assert got.rest[..got.value] == got.rest && got.rest[got.value..] == [];
      LengthIsLocal(p, got.value, rest);
      assert Front(p, 0) == p;
      assert (got.rest + rest)[got.value..] == rest;
    } else {
      assert (p + rest)[|p|..] == rest;
    }
  }

  lemma {:induction false} SkipVarintExactly(p: Bytes, rest: Bytes)
    requires EndsExactly(p)
    ensures SkipVarint(p + rest) == Some(rest)
  {
    if |p| == 1 {
      assert (p + rest)[1..] == rest;
    } else {
      assert (p + rest)[1..] == p[1..] + rest;
      SkipVarintExactly(p[1..], rest);
    }
  }

  lemma {:induction false} SkipVarintIsLocal(s: Bytes, t: Bytes)
    requires SkipVarint(s).Some?
    ensures SkipVarint(Front(s, |SkipVarint(s).value|) + t) == Some(t)
  {
    var n := |SkipVarint(s).value|;
    var u := Front(s, n) + t;
    assert u[0] == s[0];
    if s[0] >= 0x80 {
      SkipVarintIsLocal(s[1..], t);
      assert u[1..] == Front(s[1..], n) + t;
    } else {
      assert u[1..] == t;
    }
  }

  lemma SkipIsLocal(wireType: nat, s: Bytes, t: Bytes)
    requires SkipField(wireType, s).Some?
    ensures SkipField(wireType, Front(s, |SkipField(wireType, s).value|) + t) == Some(t)
  {
    hide SkipVarint, SplitLength;
    if wireType == WT_VARINT {
      SkipVarintIsLocal(s, t);
    } else if wireType == WT_STRING {
      SplitIsLocal(s, t);
    } else {
      FixedIsLocal(s, if wireType == WT_64BIT then 8 else 4, t);
    }
  }

  // ----- The loop over fields -----

  /** A round reads its own field only. */
  lemma RoundIsLocal(d: Descriptor, st: Progress, pos: nat, s: Bytes, t: Bytes)
    requires (d.fields == [] || pos < |d.fields|) && RoundOf(d, st, pos, s).GoesOn?
    ensures var r := RoundOf(d, st, pos, s); RoundOf(d, st, pos, Front(s, |r.rest|) + t) == GoesOn(r.next, r.at, t)
  {
    hide DecVarint32, DecOccurrence, FindFrom, SkipField;
    var r := RoundOf(d, st, pos, s);
    var got := DecVarint32(s).value;
    var tag, wireType := got.value / 8, got.value % 8;
    assert s == Front(s, |got.rest|) + got.rest;
    var mid := Front(got.rest, |r.rest|) + t;
    assert Front(s, |r.rest|) + t == Front(s, |got.rest|) + mid;
    Varint32IsLocal(s, mid);
    var found := if d.fields == [] then None else FindFrom(d, pos, 0, tag);
    match found
    case None => SkipIsLocal(wireType, got.rest, t);
    case Some(i) => OccurrenceIsLocal(d, st, i, wireType, got.rest, t);
  }

  /** The decoder comes to the start of a field after `n` bytes of the input. */
  predicate Boundary(d: Descriptor, st: Progress, pos: nat, s: Bytes, n: nat)
    requires d.fields == [] || pos < |d.fields|
    decreases n
  {
    n == 0 ||
    (var r := RoundOf(d, st, pos, s);
     r.GoesOn? && |s| - |r.rest| <= n && Boundary(d, r.next, r.at, r.rest, n - (|s| - |r.rest|)))
  }

  lemma {:induction false} BoundaryInside(d: Descriptor, st: Progress, pos: nat, s: Bytes, n: nat)
    requires (d.fields == [] || pos < |d.fields|) && Boundary(d, st, pos, s, n)
    ensures n <= |s|
    decreases n
  {
    hide RoundOf;
    if n > 0 {
      var r := RoundOf(d, st, pos, s);
      BoundaryInside(d, r.next, r.at, r.rest, n - (|s| - |r.rest|));
    }
  }

  /** A tag that is not in the descriptor, and a value of its wire type. */
  predicate UnknownField(d: Descriptor, u: Bytes) {
    match DecVarint32(u)
    case None => false
    case Some(got) =>
      && got.value / 8 > 0 && (forall i | 0 <= i < |d.fields| :: d.fields[i].tag != got.value / 8)
      && WellFormedValue(got.value % 8, got.rest)
  }

  /** An unknown field is one round that changes nothing, whatever follows it. */
  lemma UnknownRound(d: Descriptor, st: Progress, pos: nat, u: Bytes, t: Bytes)
    requires (d.fields == [] || pos < |d.fields|) && UnknownField(d, u)
    ensures RoundOf(d, st, pos, u + t) == GoesOn(st, pos, t)
  {
    hide DecVarint32, DecOccurrence, FindFrom, SkipField, WellFormedValue;
    var got := DecVarint32(u).value;
    Varint32IsLocal(u, got.rest + t);
    assert u == Front(u, |got.rest|) + got.rest;
    assert u + t == Front(u, |got.rest|) + (got.rest + t);
    SkipConsumesExactly(got.value % 8, got.rest, t);
    if d.fields != [] {
      FindIffPresent(d, pos, got.value / 8);
    }
  }

  /** What a round leaves is the end of the input. */
  lemma RoundSuffix(d: Descriptor, st: Progress, pos: nat, s: Bytes)
    requires (d.fields == [] || pos < |d.fields|) && RoundOf(d, st, pos, s).GoesOn?
    ensures var rest := RoundOf(d, st, pos, s).rest; rest == s[|s| - |rest|..]
  {
    hide RoundOf;
    var rest := RoundOf(d, st, pos, s).rest;
    RoundIsLocal(d, st, pos, s, s[|s| - |rest|..]);
    assert Front(s, |rest|) + s[|s| - |rest|..] == s;
  }

  /** Inserting behind the front of the input is inserting into what follows the front. */
  lemma InsertBehind(s: Bytes, m: nat, n: nat, u: Bytes)
    requires m <= n <= |s|
    ensures var rest := s[m..]; s[..n] + u + s[n..] == Front(s, |rest|) + (rest[..n - m] + u + rest[n - m..])
  {
    var rest := s[m..];
    assert s[..n] == s[..m] + rest[..n - m] && s[n..] == rest[n - m..];
  }

  lemma {:induction false} UnknownInLoop(d: Descriptor, st: Progress, pos: nat, s: Bytes, n: nat, u: Bytes)
    requires (d.fields == [] || pos < |d.fields|) && Boundary(d, st, pos, s, n) && n <= |s| && UnknownField(d, u)
    ensures DecLoop(d, st, pos, s[..n] + u + s[n..]) == DecLoop(d, st, pos, s)
    decreases n
  {
    hide RoundOf, UnknownField;
    var longer := s[..n] + u + s[n..];
    if n == 0 {
      assert longer == u + s;
      UnknownRound(d, st, pos, u, s);
    } else {
      var r := RoundOf(d, st, pos, s);
      var m := |s| - |r.rest|;
      BoundaryInside(d, r.next, r.at, r.rest, n - m);
      RoundSuffix(d, st, pos, s);
      InsertBehind(s, m, n, u);
      RoundIsLocal(d, st, pos, s, r.rest[..n - m] + u + r.rest[n - m..]);
      UnknownInLoop(d, r.next, r.at, r.rest, n - m, u);
    }
  }

  /**
   Unknown fields are transparent: a well-formed field whose tag is not in the descriptor, inserted where the
   decoder comes to the start of a field, or at the very end, does not change the outcome.
   */
  lemma UnknownFieldsAreTransparent(d: Descriptor, slots: seq<Slot>, s: Bytes, n: nat, u: Bytes)
    requires n <= |s| && Boundary(d, Progress(slots, {}, None), 0, s, n) && UnknownField(d, u)
    ensures DecMessage(d, slots, s[..n] + u + s[n..]) == DecMessage(d, slots, s)
  {
    hide RoundOf, DecLoop, UnknownField, Boundary, Complete;
    UnknownInLoop(d, Progress(slots, {}, None), 0, s, n, u);
  }

  /** Where the iterator happens to stand never affects the outcome. */
  lemma {:induction false} PositionIsIrrelevant(d: Descriptor, st: Progress, a: nat, b: nat, s: Bytes)
    requires DistinctTags(d) && (d.fields == [] || (a < |d.fields| && b < |d.fields|))
    ensures DecLoop(d, st, a, s) == DecLoop(d, st, b, s)
    decreases |s|
  {
    hide DecVarint32, DecOccurrence, FindFrom, SkipField;
    if s != [] && DecVarint32(s).Some? && d.fields != [] {
      FindIgnoresStart(d, a, b, DecVarint32(s).value.value / 8);
    }
    if RoundOf(d, st, a, s).GoesOn? {
      var r := RoundOf(d, st, a, s);
      PositionIsIrrelevant(d, r.next, r.at, RoundOf(d, st, b, s).at, r.rest);
    }
  }
}
