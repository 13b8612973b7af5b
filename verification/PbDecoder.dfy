/**
 The stream code behind `PbDecode`: an input stream with a limit, substreams for length-delimited items, and the
 decoding loop with its wrapping field iterator, its bit set of required fields and its array counter.
 */
module PbDecoder {
  import opened Wrappers
  import opened PbVarint
  import opened PbModel
  import opened PbEncode
  import opened PbDecode

  class IStream {
    const data: Bytes
    var at: nat
    var bytesLeft: nat

    ghost predicate Valid()
      reads this
    {
      at + bytesLeft <= |data|
    }

    /** The input that is left. */
    ghost function Rest(): (s: Bytes)
      requires Valid()
      reads this
      ensures |s| == bytesLeft
    {
      data[at..at + bytesLeft]
    }

    ghost function End(): nat
      reads this
    {
      at + bytesLeft
    }

    constructor (data: Bytes, at: nat, bytesLeft: nat)
      requires at + bytesLeft <= |data|
      ensures Valid() && Rest() == data[at..at + bytesLeft]
      ensures this.data == data && this.at == at && this.bytesLeft == bytesLeft
    {
      this.data, this.at, this.bytesLeft := data, at, bytesLeft;
    }

    method Read(count: nat) returns (ok: bool, bytes: Bytes)
      requires Valid()
      modifies this
      ensures Valid() && End() == old(End()) && ok == (count <= old(bytesLeft))
      ensures ok ==> bytes == old(Rest())[..count] && Rest() == old(Rest())[count..]
    {
      if bytesLeft < count {
        return false, [];
      }
      bytes := data[at..at + count];
      at, bytesLeft := at + count, bytesLeft - count;
      return true, bytes;
    }

    method ReadByte() returns (ok: bool, byte: Byte)
      requires Valid()
      modifies this
      ensures Valid() && End() == old(End()) && ok == (old(Rest()) != [])
      ensures ok ==> byte == old(Rest())[0] && Rest() == old(Rest())[1..]
    {
      if bytesLeft == 0 {
        return false, 0;
      }
      byte := data[at];
      at, bytesLeft := at + 1, bytesLeft - 1;
      return true, byte;
    }
  }

  /** The outcome of reading a number, as the specification gives it. */
  ghost predicate Reads(r: Option<Got>, ok: bool, value: nat, rest: Bytes) {
    ok == r.Some? && (ok ==> r == Some(Got(value, rest)))
  }

  method DecodeVarint(s: IStream) returns (ok: bool, value: nat)
    requires s.Valid()
    modifies s
    ensures s.Valid() && s.End() == old(s.End()) && Reads(DecVarint(old(s.Rest())), ok, value, s.Rest())
  {
    hide BitOr, Word64, Shl, Payload;
    var bitpos := 0;
    value := 0;
    while true
      invariant s.Valid() && s.End() == old(s.End())
      invariant DecVarint(old(s.Rest())) == DecVarintFrom(s.Rest(), bitpos, value)
      decreases s.bytesLeft
    {
      if bitpos >= 64 {
        return false, 0;
      }
      var more, byte := s.ReadByte();
      if !more {
        return false, 0;
      }
      value := BitOr(value, Word64(Shl(Payload(byte), bitpos)));
      bitpos := bitpos + 7;
      if byte < 0x80 {
        return true, value;
      }
    }
  }

  method DecodeVarint32(s: IStream) returns (ok: bool, value: nat)
    requires s.Valid()
    modifies s
    ensures s.Valid() && s.End() == old(s.End()) && Reads(DecVarint32(old(s.Rest())), ok, value, s.Rest())
  {
    hide BitOr, Word32, Shl, Payload, NextPos;
    var more, byte := s.ReadByte();
    if !more {
      return false, 0;
    }
    if byte < 0x80 {
      return true, byte;
    }
    var bitpos := 7;
    value := Payload(byte);
    while true
      invariant s.Valid() && s.End() == old(s.End()) && 0 <= bitpos
      invariant DecVarint32(old(s.Rest())) == DecVarint32More(s.Rest(), bitpos, value)
      decreases s.bytesLeft
    {
      more, byte := s.ReadByte();
      if !more {
        return false, 0;
      }
      if bitpos >= 32 {
        var signExtension := if bitpos < 63 then 0xFF else 0x01;
        if Payload(byte) != 0 && (value / 0x8000_0000 == 0 || byte != signExtension) {
          return false, 0;
        }
      } else {
        value := BitOr(value, Word32(Shl(Payload(byte), bitpos)));
      }
      bitpos := NextPos(bitpos);
      if byte < 0x80 {
        if bitpos == 35 && byte / 0x10 != 0 {
          return false, 0;
        }
        return true, value;
      }
    }
  }

  /** Reads a length and gives a stream limited to so many bytes; the parent stands before them. */
  method MakeSubstream(s: IStream) returns (ok: bool, sub: IStream)
    requires s.Valid()
    modifies s
    ensures s.Valid() && fresh(sub) && sub.Valid() && sub.data == s.data
    ensures s.End() <= old(s.End()) && ok == SplitLength(old(s.Rest())).Some?
    ensures ok ==>
      var split := SplitLength(old(s.Rest())).value;
      && sub.Rest() == split.inner && |split.rest| == s.bytesLeft && sub.End() + s.bytesLeft == old(s.End())
      && s.data[sub.End()..sub.End() + s.bytesLeft] == split.rest && sub.End() + s.bytesLeft <= |s.data|
  {
    hide DecVarint32;
    var got, size := DecodeVarint32(s);
    sub := new IStream(s.data, 0, 0);
    if !got || s.bytesLeft < size {
      return false, sub;
    }
    sub := new IStream(s.data, s.at, size);
    s.bytesLeft := s.bytesLeft - size;
    return true, sub;
  }

  /** Skips what a substream has left; the parent goes on behind it. */
  method CloseSubstream(s: IStream, sub: IStream)
    requires s != sub && sub.Valid() && sub.data == s.data && sub.End() + s.bytesLeft <= |s.data|
    modifies s, sub
    ensures s.Valid() && s.bytesLeft == old(s.bytesLeft) && s.at == old(sub.End())
    ensures s.Rest() == s.data[old(sub.End())..old(sub.End()) + old(s.bytesLeft)]
  {
    if sub.bytesLeft != 0 {
      var _, _ := sub.Read(sub.bytesLeft);
    }
    s.at := sub.at;
  }

  method SkipValue(s: IStream, wireType: nat) returns (ok: bool)
    requires s.Valid()
    modifies s
    ensures s.Valid() && s.End() == old(s.End()) && ok == SkipField(wireType, old(s.Rest())).Some?
    ensures ok ==> SkipField(wireType, old(s.Rest())) == Some(s.Rest())
  {
    hide DecVarint32;
    if wireType == WT_VARINT {
      while true
        invariant s.Valid() && s.End() == old(s.End())
        invariant SkipVarint(old(s.Rest())) == SkipVarint(s.Rest())
        decreases s.bytesLeft
      {
        var more, byte := s.ReadByte();
        if !more {
          return false;
        }
        if byte < 0x80 {
          return true;
        }
      }
    } else if wireType == WT_64BIT {
      var read, _ := s.Read(8);
      return read;
    } else if wireType == WT_STRING {
      var got, length := DecodeVarint32(s);
      if !got {
        return false;
      }
      var read, _ := s.Read(length);
      return read;
    } else if wireType == WT_32BIT {
      var read, _ := s.Read(4);
      return read;
    } else {
      return false;
    }
  }

  // ----- Bit sets -----

  predicate HasBit(n: nat, k: nat) {
    if k == 0 then n % 2 == 1 else HasBit(n / 2, k - 1)
  }

  lemma {:induction false} OrHasBit(a: nat, b: nat, k: nat)
    ensures HasBit(BitOr(a, b), k) == (HasBit(a, k) || HasBit(b, k))
    decreases k
  {
    if a == 0 {
      ZeroHasNoBit(k);
    } else if b == 0 {
      ZeroHasNoBit(k);
    } else if k > 0 {
      OrHasBit(a / 2, b / 2, k - 1);
    }
  }

  lemma {:induction false} ZeroHasNoBit(k: nat)
    ensures !HasBit(0, k)
  {
    if k > 0 {
      ZeroHasNoBit(k - 1);
    }
  }

  lemma {:induction false} PowerHasBit(j: nat, k: nat)
    ensures HasBit(Pow2(j), k) == (j == k)
  {
    if j == 0 {
      if k > 0 {
        ZeroHasNoBit(k - 1);
      }
    } else if k > 0 {
      assert Pow2(j) / 2 == Pow2(j - 1);
      PowerHasBit(j - 1, k - 1);
    }
  }

  /** The bits of `n` are exactly the first `m`. */
  ghost predicate FirstBits(n: nat, m: nat) {
    forall k: nat :: HasBit(n, k) == (k < m)
  }

  /** A number whose bits are exactly the first `m` is one less than a power of two. */
  lemma {:induction false} OnesAreBits(n: nat, m: nat)
    ensures n == Pow2(m) - 1 <==> FirstBits(n, m)
    decreases n
  {
    if n == 0 {
      forall k: nat
        ensures !HasBit(n, k)
      {
        ZeroHasNoBit(k);
      }
      if m > 0 {
        assert HasBit(n, 0) != (0 < m);
      }
    } else if m == 0 {
      var k := SomeBit(n);
      assert HasBit(n, k) != (k < m);
    } else {
      OnesAreBits(n / 2, m - 1);
      HalfBits(n, m);
    }
  }

  lemma HalfBits(n: nat, m: nat)
    requires m > 0
    ensures FirstBits(n, m) <==> n % 2 == 1 && FirstBits(n / 2, m - 1)
  {
    if FirstBits(n, m) {
      forall k: nat
        ensures HasBit(n / 2, k) == (k < m - 1)
      {
        assert HasBit(n, k + 1) == (k + 1 < m);
      }
      assert HasBit(n, 0) == (0 < m);
    } else if n % 2 == 1 {
      var k: nat :| HasBit(n, k) != (k < m);
      assert HasBit(n / 2, k - 1) != (k - 1 < m - 1);
    }
  }

  lemma {:induction false} SomeBit(n: nat) returns (k: nat)
    requires n > 0
    ensures HasBit(n, k)
  {
    if n % 2 == 1 {
      k := 0;
    } else {
      k := SomeBit(n / 2);
      k := k + 1;
    }
  }

  /** Two words of 32 bits that hold a set of numbers below 64. */
  ghost predicate Holds(words: seq<nat>, seen: set<nat>) {
    && |words| == 2
    && (forall i, k: nat | 0 <= i < 2 && k >= 32 :: !HasBit(words[i], k))
    && forall r: nat | r < 64 :: HasBit(words[r / 32], r % 32) <==> r in seen
  }

  lemma NothingSeen()
    ensures Holds([0, 0], {})
  {
    forall k: nat
      ensures !HasBit(0, k)
    {
      ZeroHasNoBit(k);
    }
  }

  /** Sets the bit of a required field. */
  method SetSeen(words: seq<nat>, ghost seen: set<nat>, r: nat) returns (after: seq<nat>)
    requires Holds(words, seen) && r < MAX_REQUIRED_FIELDS
    ensures Holds(after, seen + {r})
  {
    hide HasBit, BitOr, Pow2;
    var w := BitOr(words[r / 32], Pow2(r % 32));
    after := words[r / 32 := w];
    forall k: nat
      ensures HasBit(w, k) <==> HasBit(words[r / 32], k) || k == r % 32
    {
      OrHasBit(words[r / 32], Pow2(r % 32), k);
      PowerHasBit(r % 32, k);
    }
    forall q: nat | q < 64
      ensures HasBit(after[q / 32], q % 32) <==> q in seen + {r}
    {
      assert q == 32 * (q / 32) + q % 32 && r == 32 * (r / 32) + r % 32;
    }
  }

  const ALL_BITS := 0xFFFF_FFFF

  /** The word that has the first `k` bits set, shifted down from a full one. */
  lemma ShiftedOnes(k: nat)
    requires 0 < k <= 32
    ensures ALL_BITS / Pow2(32 - k) == Pow2(k) - 1
  {
    hide Pow2;
    Pow2Values();
    Pow2Add(k, 32 - k);
    var p, q := Pow2(k), Pow2(32 - k);
    assert ALL_BITS == (p - 1) * q + (q - 1) by {
      Distribute2(p, q);
    }
    DivUnique(ALL_BITS, q, p - 1, q - 1);
  }

  lemma Distribute2(p: nat, q: nat)
    ensures (p - 1) * q + (q - 1) == p * q - 1
  {
  }

  lemma DivUnique(x: nat, n: nat, q: nat, r: nat)
    requires r < n && x == q * n + r
    ensures x / n == q
  {
    ModUnique(x, n, q, r);
    var p := x / n;
    assert p * n == q * n;
    if p < q {
      MulOrder(p + 1, q, n);
    } else if q < p {
      MulOrder(q + 1, p, n);
    }
  }

  /** Whether the first `count` required fields, but no more than 64, were all seen. */
  method AllSeen(words: seq<nat>, ghost seen: set<nat>, count: nat) returns (all: bool)
    requires Holds(words, seen) && forall r | r in seen :: r < count
    ensures all <==> forall r: nat | r < PbDecode.Min(count, MAX_REQUIRED_FIELDS) :: r in seen
  {
    hide HasBit, Pow2, FirstBits;
    var n := if count > MAX_REQUIRED_FIELDS then MAX_REQUIRED_FIELDS else count;
    for i := 0 to n / 32
      invariant forall r: nat | r < 32 * i :: r in seen
    {
      WordIsFull(words, seen, i);
      if words[i] != ALL_BITS {
        return false;
      }
    }
    if n % 32 != 0 {
      ShiftedOnes(n % 32);
      WordIsPartial(words, seen, n);
      if words[n / 32] != ALL_BITS / Pow2(32 - n % 32) {
        return false;
      }
    }
    return true;
  }

  /** A word that holds a set has its low `m` bits set, and no others, when the first `m` of its numbers are there. */
  lemma WordIsOnes(word: nat, seen: set<nat>, lo: nat, m: nat)
    requires m <= 32 && forall k: nat :: HasBit(word, k) == (k < 32 && lo + k in seen)
    requires forall r | r in seen && lo <= r < lo + 32 :: r < lo + m
    ensures word == Pow2(m) - 1 <==> forall r: nat | lo <= r < lo + m :: r in seen
  {
    hide HasBit, Pow2;
    OnesAreBits(word, m);
    if word == Pow2(m) - 1 {
      forall r: nat | lo <= r < lo + m
        ensures r in seen
      {
        assert HasBit(word, r - lo) == (r - lo < m);
      }
    } else if forall r: nat | lo <= r < lo + m :: r in seen {
      forall k: nat
        ensures HasBit(word, k) == (k < m)
      {
        assert k < m ==> lo + k in seen;
      }
    }
  }

  lemma WordHolds(words: seq<nat>, seen: set<nat>, i: nat, k: nat)
    requires Holds(words, seen) && i < 2
    ensures HasBit(words[i], k) == (k < 32 && 32 * i + k in seen)
  {
    hide HasBit;
    if k < 32 {
      var r := 32 * i + k;
      assert r / 32 == i && r % 32 == k;
      assert HasBit(words[r / 32], r % 32) <==> r in seen;
    }
  }

  lemma WordIsFull(words: seq<nat>, seen: set<nat>, i: nat)
    requires Holds(words, seen) && i < 2
    ensures words[i] == ALL_BITS <==> forall r: nat | 32 * i <= r < 32 * (i + 1) :: r in seen
  {
    hide HasBit, Pow2;
    forall k: nat
      ensures HasBit(words[i], k) == (k < 32 && 32 * i + k in seen)
    {
      WordHolds(words, seen, i, k);
    }
    Pow2Values();
    WordIsOnes(words[i], seen, 32 * i, 32);
  }

  lemma WordIsPartial(words: seq<nat>, seen: set<nat>, n: nat)
    requires Holds(words, seen) && n < 64 && forall r | r in seen :: r < n
    ensures words[n / 32] == Pow2(n % 32) - 1 <==> forall r: nat | 32 * (n / 32) <= r < n :: r in seen
  {
    hide HasBit, Pow2;
    var i := n / 32;
    forall k: nat
      ensures HasBit(words[i], k) == (k < 32 && 32 * i + k in seen)
    {
      WordHolds(words, seen, i, k);
    }
    WordIsOnes(words[i], seen, 32 * i, n % 32);
  }

  // ----- Defaults -----

  method FieldDefault(f: Field) returns (slot: Slot)
    requires WellFormedField(f)
    ensures slot == DefaultSlot(f)
    decreases f, 1
  {
    match f.htype
    case Required =>
      var v := ValueDefault(f);
      return Single(v);
    case Optional =>
      if f.hasSize {
        return Opt(None);
      }
      var v := ValueDefault(f);
      return Single(v);
    case Repeated => return Many([]);
    case Oneof => return Union(None);
  }

  method ValueDefault(f: Field) returns (v: Value)
    requires WellFormedField(f)
    ensures v == DefaultValue(f)
    decreases f, 0
  {
    if f.ltype == Submessage {
      if f.ptr.Sub? {
        var slots := SetToDefaults(f.ptr.desc);
        return MessageV(slots);
      }
      return MessageV([]);
    }
    return DefaultValue(f);
  }

  /** Walks a descriptor and gives every slot its initial content. */
  method SetToDefaults(d: Descriptor) returns (slots: seq<Slot>)
    requires WellFormed(d)
    ensures slots == DefaultSlots(d)
    decreases d, 2
  {
    hide DefaultSlot;
    slots := [];
    if d.fields == [] {
      return;
    }
    var iter := new FieldIter.Begin(d);
    var more := true;
    ghost var i := 0;
    while more
      invariant iter.Valid() && iter.desc == d && fresh(iter)
      invariant 0 <= i <= |d.fields| && (if more then iter.pos == i < |d.fields| else i == |d.fields|)
      invariant slots == DefaultsTo(d, i)
      decreases |d.fields| - i
    {
      assert WellFormedField(d.fields[i]);
      if iter.slot == |slots| {
        var slot := FieldDefault(d.fields[iter.pos]);
        slots := slots + [slot];
      }
      more := iter.Next();
      i := i + 1;
    }
  }

  // ----- Values and fields -----

  /** The outcome of reading a value, as the specification gives it. */
  ghost predicate Yields(r: Option<Read>, ok: bool, v: Value, rest: Bytes) {
    ok == r.Some? && (ok ==> r == Some(Read(v, rest)))
  }

  method DecodeNumber(s: IStream, f: Field, base: Value) returns (ok: bool, v: Value)
    requires s.Valid() && Packable(f.ltype)
    modifies s
    ensures s.Valid() && s.End() == old(s.End()) && Yields(DecValue(f, base, old(s.Rest())), ok, v, s.Rest())
  {
    hide DecVarint, FromLittleEndian, Word64, SignedOf, UnZigZag, SignedFits, UnsignedFits;
    v := IntV(0);
    var value: nat;
    match f.ltype
    case Varint =>
      ok, value := DecodeVarint(s);
      if ok {
        var n := SignedOf(Word64(value), f.dataSize);
        return SignedFits(n, f.dataSize), IntV(n);
      }
    case UVarint =>
      ok, value := DecodeVarint(s);
      if ok {
        return UnsignedFits(value, f.dataSize), IntV(value);
      }
    case SVarint =>
      ok, value := DecodeVarint(s);
      if ok {
        var n := UnZigZag(Word64(value));
        return SignedFits(n, f.dataSize), IntV(n);
      }
    case Fixed32 =>
      var read, bytes := s.Read(4);
      return read, if read then IntV(FromLittleEndian(bytes)) else v;
    case Fixed64 =>
      var read, bytes := s.Read(8);
      return read, if read then IntV(FromLittleEndian(bytes)) else v;
  }

  method DecodeBytes(s: IStream, f: Field, base: Value) returns (ok: bool, v: Value)
    requires s.Valid() && f.ltype in {BytesType, StringType, FixedLengthBytes}
    modifies s
    ensures s.Valid() && s.End() == old(s.End()) && Yields(DecValue(f, base, old(s.Rest())), ok, v, s.Rest())
  {
    hide DecVarint, DecVarint32, Zeros, FromLittleEndian, Word64, SignedOf, UnZigZag, SignedFits, UnsignedFits, DecLoop;
    v := IntV(0);
    var got, size := DecodeVarint32(s);
    if !got {
      return false, v;
    }
    if f.ltype == FixedLengthBytes {
      if size == 0 {
        return true, FixedV(Zeros(f.dataSize));
      }
      if size != f.dataSize {
        return false, v;
      }
    } else if size + (if f.ltype == BytesType then BYTES_HEADER else 1) > f.dataSize {
      return false, v;
    }
    var read, bytes := s.Read(size);
    return read, match f.ltype
      case BytesType => BytesV(bytes)
      case StringType => StringV(bytes)
      case _ => FixedV(bytes);
  }

  /** On success the end of the stream is where it was; a failure may lose a substream. */
  predicate Kept(before: nat, after: nat, ok: bool) {
    after <= before && (ok ==> after == before)
  }

  method DecodeValue(s: IStream, f: Field, base: Value) returns (ok: bool, v: Value)
    requires s.Valid() && WellFormedField(f)
    modifies s
    ensures s.Valid() && Kept(old(s.End()), s.End(), ok) && Yields(DecValue(f, base, old(s.Rest())), ok, v, s.Rest())
    decreases f, 1
  {
    hide DecValue;
    if f.ltype == Submessage {
      ok, v := DecodeSubmessage(s, f, base);
    } else if Packable(f.ltype) {
      ok, v := DecodeNumber(s, f, base);
    } else {
      ok, v := DecodeBytes(s, f, base);
    }
  }

  /** Decodes a submessage from its own substream. */
  method DecodeSubmessage(s: IStream, f: Field, base: Value) returns (ok: bool, v: Value)
    requires s.Valid() && WellFormedField(f) && f.ltype == Submessage
    modifies s
    ensures s.Valid() && Kept(old(s.End()), s.End(), ok) && Yields(DecValue(f, base, old(s.Rest())), ok, v, s.Rest())
    decreases f, 0
  {
    hide DecVarint32, DecMessage, SplitLength, DefaultSlots;
    v := base;
    var made, sub := MakeSubstream(s);
    if !made || !f.ptr.Sub? || !base.MessageV? {
      return false, v;
    }
    var start := base.slots;
    if f.htype == Repeated {
      start := SetToDefaults(f.ptr.desc);
    }
    var status, slots := DecodeMessage(sub, f.ptr.desc, start);
    CloseSubstream(s, sub);
    return status, MessageV(slots);
  }

  /** Items of a packed array, until the substream ends or the array is full. */
  method DecodePacked(sub: IStream, f: Field, items: seq<Value>) returns (ok: bool, all: seq<Value>)
    requires sub.Valid() && WellFormedField(f) && Packable(f.ltype)
    modifies sub
    ensures sub.Valid() && Kept(old(sub.End()), sub.End(), ok)
    ensures ok == DecPacked(f, items, old(sub.Rest())).Some?
    ensures ok ==> DecPacked(f, items, old(sub.Rest())) == Some((all, sub.Rest()))
    decreases f, 2
  {
    hide DecValue, DefaultValue;
    all := items;
    while sub.bytesLeft > 0 && |all| < f.arraySize
      invariant sub.Valid() && sub.End() == old(sub.End())
      invariant DecPacked(f, items, old(sub.Rest())) == DecPacked(f, all, sub.Rest())
      decreases sub.bytesLeft
    {
      var read, v := DecodeValue(sub, f, DefaultValue(f));
      if !read {
        return false, all;
      }
      all := all + [v];
    }
    return true, all;
  }

  /** One occurrence of a field. */
  method DecodeField(s: IStream, f: Field, slot: Slot, wireType: nat) returns (ok: bool, after: Slot)
    requires s.Valid() && WellFormedField(f)
    modifies s
    ensures s.Valid() && Kept(old(s.End()), s.End(), ok) && ok == DecField(f, slot, wireType, old(s.Rest())).Some?
    ensures ok ==> DecField(f, slot, wireType, old(s.Rest())) == Some(Stored(after, s.Rest()))
    decreases f, 4
  {
    hide DecValue, DecPacked, SplitLength, DefaultValue;
    after := slot;
    var v;
    match f.htype
    case Required =>
      if !slot.Single? {
        return false, slot;
      }
      ok, v := DecodeValue(s, f, slot.v);
      return ok, Single(v);
    case Optional =>
      if f.hasSize {
        if !slot.Opt? {
          return false, slot;
        }
        ok, v := DecodeValue(s, f, if slot.o.Some? then slot.o.value else DefaultValue(f));
        return ok, Opt(Some(v));
      }
      if !slot.Single? {
        return false, slot;
      }
      ok, v := DecodeValue(s, f, slot.v);
      return ok, Single(v);
    case Repeated =>
      if !slot.Many? {
        return false, slot;
      }
      if wireType == WT_STRING && Packable(f.ltype) {
        ok, after := DecodePackedField(s, f, slot.items);
        return;
      }
      if |slot.items| >= f.arraySize {
        return false, slot;
      }
      ok, v := DecodeValue(s, f, DefaultValue(f));
      return ok, Many(slot.items + [v]);
    case Oneof =>
      var cleared := ValueDefault(f);
      ok, v := DecodeValue(s, f, cleared);
      return ok, Union(Some(Member(f.tag, v)));
  }

  /** A packed array in its substream; bytes left over in it mean that the array was too small. */
  method DecodePackedField(s: IStream, f: Field, items: seq<Value>) returns (ok: bool, after: Slot)
    requires s.Valid() && WellFormedField(f) && f.htype == Repeated && Packable(f.ltype)
    modifies s
    ensures s.Valid() && Kept(old(s.End()), s.End(), ok)
    ensures ok == DecField(f, Many(items), WT_STRING, old(s.Rest())).Some?
    ensures ok ==> DecField(f, Many(items), WT_STRING, old(s.Rest())) == Some(Stored(after, s.Rest()))
    decreases f, 3
  {
    hide DecValue, DecPacked, SplitLength, DefaultValue;
    after := Many(items);
    var made, sub := MakeSubstream(s);
    if !made {
      return false, after;
    }
    var status, all := DecodePacked(sub, f, items);
    if sub.bytesLeft != 0 {
      CloseSubstream(s, sub);
      return false, after;
    }
    CloseSubstream(s, sub);
    return status, Many(all);
  }

  // ----- Messages -----

  /** One occurrence of the field the iterator stands on. */
  method DecodeOccurrence(s: IStream, d: Descriptor, iter: FieldIter, ghost st: Progress, slots: seq<Slot>,
      words: seq<nat>, fixed: Option<nat>, wireType: nat)
    returns (ok: bool, slots': seq<Slot>, words': seq<nat>, fixed': Option<nat>, ghost next: Progress)
    requires s.Valid() && WellFormed(d) && iter.Valid() && iter.desc == d && d.fields != []
    requires st == Progress(slots, st.seen, fixed) && Holds(words, st.seen)
    requires forall r | r in st.seen :: r < RequiredBefore(d, |d.fields|)
    modifies s
    ensures s.Valid() && Kept(old(s.End()), s.End(), ok)
    ensures ok == DecOccurrence(d, st, iter.pos, wireType, old(s.Rest())).Some?
    ensures ok ==>
      && DecOccurrence(d, st, iter.pos, wireType, old(s.Rest())) == Some((next, s.Rest()))
      && next == Progress(slots', next.seen, fixed') && Holds(words', next.seen)
      && forall r | r in next.seen :: r < RequiredBefore(d, |d.fields|)
    decreases d, 0
  {
    hide DecField, Holds, FixedFull;
    slots', words', fixed', next := slots, words, fixed, st;
    ghost var i := iter.pos;
    var f := d.fields[iter.pos];
    assert WellFormedField(f);
    if f.htype == Repeated && !f.hasSize && fixed != Some(iter.pos) {
      // Another array without a stored count starts; the one before it must be full.
      if !FixedFull(d, Progress(slots, {}, fixed)) || iter.slot >= |slots| {
        FixedFullIgnoresSeen(d, st, Progress(slots, {}, fixed));
        return false, slots, words, fixed, next;
      }
      FixedFullIgnoresSeen(d, st, Progress(slots, {}, fixed));
      fixed' := Some(iter.pos);
      slots' := slots[iter.slot := Many([])];
    }
    ghost var started := Progress(slots', st.seen, fixed');
    assert StartFixed(d, st, i) == Some(started);
    if iter.slot >= |slots'| {
      return false, slots', words, fixed', next;
    }
    if f.htype == Required && iter.requiredIndex < MAX_REQUIRED_FIELDS {
      RankBelowCount(d, i);
      words' := SetSeen(words, st.seen, iter.requiredIndex);
    }
    var after;
    ok, after := DecodeField(s, f, slots'[iter.slot], wireType);
    if !ok {
      return;
    }
    slots' := slots'[iter.slot := after];
    next := MarkSeen(d, Progress(slots', st.seen, fixed'), i);
  }

  lemma FixedFullIgnoresSeen(d: Descriptor, a: Progress, b: Progress)
    requires a.slots == b.slots && a.fixed == b.fixed
    ensures FixedFull(d, a) == FixedFull(d, b)
  {
  }

  lemma RankBelowCount(d: Descriptor, i: nat)
    requires i < |d.fields| && d.fields[i].htype == Required
    ensures RequiredBefore(d, i) < RequiredBefore(d, |d.fields|)
  {
    RequiredMonotone(d, i + 1, |d.fields|);
  }

  lemma {:induction false} RequiredMonotone(d: Descriptor, i: nat, j: nat)
    requires i <= j <= |d.fields|
    ensures RequiredBefore(d, i) <= RequiredBefore(d, j)
    decreases j
  {
    if i < j {
      RequiredMonotone(d, i, j - 1);
    }
  }

  /** Counts the required fields by walking to the end of the lap. */
  method CountRequired(iter: FieldIter) returns (count: nat)
    requires iter.Valid()
    modifies iter
    ensures iter.Valid() && count == RequiredBefore(iter.desc, |iter.desc.fields|)
  {
    if iter.desc.fields == [] {
      return 0;
    }
    var last := Required;
    var more := true;
    ghost var p := iter.pos;
    count := 0;
    while more
      invariant iter.Valid() && 0 <= p <= |iter.desc.fields|
      invariant if more then p == iter.pos else p == |iter.desc.fields|
      invariant !more ==> last == iter.desc.fields[p - 1].htype && count == RequiredBefore(iter.desc, p - 1)
      decreases |iter.desc.fields| - p
    {
      count := iter.requiredIndex;
      last := iter.desc.fields[iter.pos].htype;
      more := iter.Next();
      p := p + 1;
    }
    if last == Required {
      count := count + 1;
    }
  }

  /** Reads one field; says whether it was read or skipped, and otherwise whether it ended the message. */
  method DecodeRound(s: IStream, d: Descriptor, iter: FieldIter, ghost st: Progress, slots: seq<Slot>,
      words: seq<nat>, fixed: Option<nat>)
    returns (ok: bool, ends: bool, slots': seq<Slot>, words': seq<nat>, fixed': Option<nat>, ghost next: Progress)
    requires s.Valid() && WellFormed(d) && iter.Valid() && iter.desc == d && s.bytesLeft > 0
    requires st == Progress(slots, st.seen, fixed) && Holds(words, st.seen)
    requires forall r | r in st.seen :: r < RequiredBefore(d, |d.fields|)
    modifies s, iter
    ensures s.Valid() && iter.Valid() && Kept(old(s.End()), s.End(), ok || ends)
    ensures !(ok && ends)
    ensures RoundOf(d, st, old(iter.pos), old(s.Rest())) ==
      if ok then GoesOn(next, iter.pos, s.Rest()) else if ends then Ends else Fails
    ensures ok ==>
      && next == Progress(slots', next.seen, fixed') && Holds(words', next.seen)
      && forall r | r in next.seen :: r < RequiredBefore(d, |d.fields|)
    decreases d, 1
  {
    hide DecVarint32, DecOccurrence, FindFrom, SkipField, RequiredBefore, Holds;
    slots', words', fixed', next := slots, words, fixed, st;
    ends := false;
    var got, word := DecodeVarint32(s);
    if !got {
      return false, false, slots, words, fixed, next;
    }
    if word == 0 {
      return false, true, slots, words, fixed, next;
    }
    var tag, wireType := word / 8, word % 8;
    var found := iter.Find(tag);
    if !found {
      ok := SkipValue(s, wireType);
    } else if d.fields == [] {
      ok := false;
    } else {
      ok, slots', words', fixed', next := DecodeOccurrence(s, d, iter, st, slots, words, fixed, wireType);
    }
  }

  /** Decodes into storage that is already initialized. */
  method DecodeMessage(s: IStream, d: Descriptor, start: seq<Slot>) returns (ok: bool, slots: seq<Slot>)
    requires s.Valid() && WellFormed(d)
    modifies s
    ensures s.Valid() && Kept(old(s.End()), s.End(), ok)
    ensures ok == DecMessage(d, start, old(s.Rest())).Some?
    ensures ok ==> DecMessage(d, start, old(s.Rest())) == Some(slots)
    decreases d, 2
  {
    hide RoundOf, RequiredBefore, Holds, FixedFull;
    slots := start;
    var words, fixed := [0, 0], None;
    ghost var st := Progress(start, {}, None);
    NothingSeen();
    var iter := new FieldIter.Begin(d);
    var ends := false;
    while !ends && s.bytesLeft > 0
      invariant s.Valid() && s.End() == old(s.End())
      invariant iter.Valid() && iter.desc == d && fresh(iter)
      invariant st == Progress(slots, st.seen, fixed) && Holds(words, st.seen)
      invariant forall r | r in st.seen :: r < RequiredBefore(d, |d.fields|)
      invariant DecLoop(d, Progress(start, {}, None), 0, old(s.Rest())) ==
        if ends then Some(st) else DecLoop(d, st, iter.pos, s.Rest())
      decreases !ends, s.bytesLeft
    {
      var went, slots', words', fixed';
      ghost var next;
      went, ends, slots', words', fixed', next := DecodeRound(s, d, iter, st, slots, words, fixed);
      if !went && !ends {
        return false, slots;
      }
      if went {
        slots, words, fixed, st := slots', words', fixed', next;
      }
    }
    if !ends {
      EndOfInput(d, st, iter.pos, s.Rest());
    }
    FixedFullIgnoresSeen(d, st, Progress(slots, {}, fixed));
    if !FixedFull(d, Progress(slots, {}, fixed)) {
      return false, slots;
    }
    var count := CountRequired(iter);
    ok := AllSeen(words, st.seen, count);
  }

  lemma EndOfInput(d: Descriptor, st: Progress, pos: nat, s: Bytes)
    requires (d.fields == [] || pos < |d.fields|) && s == []
    ensures DecLoop(d, st, pos, s) == Some(st)
  {
  }

  /** Decodes a message from a buffer into fresh storage. */
  method Decode(s: IStream, d: Descriptor) returns (ok: bool, slots: seq<Slot>)
    requires s.Valid() && WellFormed(d)
    modifies s
    ensures s.Valid() && ok == PbDecode.Decode(d, old(s.Rest())).Some?
    ensures ok ==> PbDecode.Decode(d, old(s.Rest())) == Some(slots)
  {
    hide DecMessage, DefaultSlots;
    var start := SetToDefaults(d);
    ok, slots := DecodeMessage(s, d, start);
  }
}
