/**
 Base 128 varints (Protocol Buffers Encoding guide, section "Base 128 Varints"), zig-zag numbers and
 little-endian fixed-width numbers, as nanopb writes and reads them. Bytes are numbers below 256, machine
 words are numbers reduced modulo a power of two.
 */
module PbVarint {
  import opened Wrappers

  const TWO_32 := 0x1_0000_0000
  const TWO_64 := 0x1_0000_0000_0000_0000

  function Pow2(n: nat): (p: nat)
    ensures p >= 1
  {
    if n == 0 then 1 else 2 * Pow2(n - 1)
  }

  /** Bitwise or. */
  function BitOr(a: nat, b: nat): nat {
    if a == 0 then b
    else if b == 0 then a
    else 2 * BitOr(a / 2, b / 2) + (if a % 2 == 1 || b % 2 == 1 then 1 else 0)
  }

  /** Or-ing bits that lie above all bits of `a` adds them. */
  lemma {:induction false} BitOrDisjoint(a: nat, b: nat, k: nat)
    requires a < Pow2(k)
    ensures BitOr(a, b * Pow2(k)) == a + b * Pow2(k)
  {
    if a > 0 && b > 0 {
      assert k > 0;
      var c := b * Pow2(k - 1);
      assert b * Pow2(k) == 2 * c by {
        assert Pow2(k) == 2 * Pow2(k - 1);
      }
      BitOrDisjoint(a / 2, b, k - 1);
    }
  }

  // ----- Encoding -----

  function Shift7(v: nat): (r: nat)
    ensures v > 0 ==> r < v
  {
    v / 0x80
  }

  /** The low seven bits with the top bit set. */
  function Continued(v: nat): (b: Byte)
    ensures b >= 0x80
  {
    v % 0x80 + 0x80
  }

  /** A byte with its top bit cleared. */
  function Last(b: Byte): (r: Byte)
    ensures b >= 0x80 ==> r == b - 0x80
  {
    b % 0x80
  }

  /** The varint of `v`: seven bits a byte, least significant first, the top bit set on all but the last. */
  function EncVarint(v: nat): (b: Bytes)
    ensures |b| >= 1
  {
    if v < 0x80 then [v] else [Continued(v)] + EncVarint(Shift7(v))
  }

  /** The number that the seven-bit groups make up, least significant first. */
  function FromGroups(b: Bytes): nat {
    if b == [] then 0 else b[0] % 0x80 + 0x80 * FromGroups(b[1..])
  }

  /** The groups of a varint make up its number, and exactly its last byte has the top bit clear. */
  lemma {:induction false} VarintGroups(v: nat)
    ensures FromGroups(EncVarint(v)) == v
    ensures forall k | 0 <= k < |EncVarint(v)| :: EncVarint(v)[k] < 0x80 <==> k == |EncVarint(v)| - 1
  {
    var b := EncVarint(v);
    if v >= 0x80 {
      VarintGroups(v / 0x80);
      var rest := EncVarint(v / 0x80);
      assert b[1..] == rest;
      assert forall k | 0 < k < |b| :: b[k] == rest[k - 1];
    } else {
      assert b[1..] == [];
    }
  }

  /** The number of bits of `v`. */
  function BitLength(v: nat): nat {
    if v == 0 then 0 else 1 + BitLength(v / 2)
  }

  /** A varint takes one byte for every seven bits begun, and at least one. */
  lemma {:induction false} VarintLength(v: nat)
    ensures |EncVarint(v)| == if v == 0 then 1 else (BitLength(v) + 6) / 7
  {
    if v >= 0x80 {
      VarintLength(v / 0x80);
      BitLengthShift7(v);
    } else {
      SmallBitLength(v);
    }
  }

  lemma BitLengthShift7(v: nat)
    requires v >= 0x80
    ensures BitLength(v) == BitLength(v / 0x80) + 7
  {
    assert v / 2 / 2 / 2 / 2 / 2 / 2 / 2 == v / 0x80;
    BitLengthStep(v);
    BitLengthStep(v / 2);
    BitLengthStep(v / 4);
    BitLengthStep(v / 8);
    BitLengthStep(v / 16);
    BitLengthStep(v / 32);
    BitLengthStep(v / 64);
  }

  lemma BitLengthStep(v: nat)
    requires v > 0
    ensures BitLength(v) == 1 + BitLength(v / 2)
  {
  }

  lemma SmallBitLength(v: nat)
    requires v < 0x80
    ensures BitLength(v) <= 7 && (v > 0 ==> BitLength(v) >= 1)
  {
    if v > 0 {
      BitLengthStep(v);
      if v / 2 > 0 {
        SmallBitLengthBy(v / 2, 6);
      }
    }
  }

  lemma {:induction false} SmallBitLengthBy(v: nat, k: nat)
    requires v < Pow2(k)
    ensures BitLength(v) <= k
  {
    if v > 0 {
      SmallBitLengthBy(v / 2, k - 1);
    }
  }

  lemma {:induction false} Pow2Add(a: nat, b: nat)
    ensures Pow2(a + b) == Pow2(a) * Pow2(b)
  {
    if a > 0 {
      Pow2Add(a - 1, b);
      assert Pow2(a) * Pow2(b) == 2 * (Pow2(a - 1) * Pow2(b));
    }
  }

  lemma {:induction false} Pow2Monotone(a: nat, b: nat)
    requires a <= b
    ensures Pow2(a) <= Pow2(b)
  {
    if a < b {
      Pow2Monotone(a, b - 1);
    }
  }

  lemma SmallPow2()
    ensures Pow2(4) == 0x10 && Pow2(7) == 0x80
  {
    assert Pow2(3) == 8;
  }

  lemma Pow2Values()
    ensures Pow2(7) == 0x80 && Pow2(28) == 0x1000_0000 && Pow2(32) == TWO_32 && Pow2(64) == TWO_64
  {
    hide Pow2;
    SmallPow2();
    Pow2Add(7, 7);
    Pow2Add(14, 14);
    Pow2Add(28, 4);
    Pow2Add(32, 32);
  }

  /** At most ten bytes for any 64-bit number. */
  lemma VarintFitsTen(v: nat)
    requires v < TWO_64
    ensures |EncVarint(v)| <= 10
  {
    VarintLength(v);
    Pow2Values();
    SmallBitLengthBy(v, 64);
  }

  // The loop of the encoder sets the top bit everywhere and clears the last one at the end.

  function Groups(v: nat): Bytes {
    if v == 0 then [] else [Continued(v)] + Groups(Shift7(v))
  }

  lemma {:induction false} GroupsAreVarint(v: nat)
    requires v > 0
    ensures var g := Groups(v);
      |g| >= 1 && g[|g| - 1] >= 0x80 && EncVarint(v) == g[..|g| - 1] + [Last(g[|g| - 1])]
  {
    if v < 0x80 {
      assert Groups(v) == [v + 0x80];
    } else {
      GroupsAreVarint(v / 0x80);
    }
  }

  /** The loop of the encoder. */
  method FillGroups(value: nat, buffer: array<Byte>) returns (i: nat)
    requires |Groups(value)| <= buffer.Length
    modifies buffer
    ensures i <= buffer.Length && buffer[..i] == Groups(value)
  {
    hide Groups, Shift7, Continued;
    var v := value;
    i := 0;
    while v != 0
      invariant i + |Groups(v)| <= buffer.Length
      invariant Groups(value) == buffer[..i] + Groups(v)
      decreases v
    {
      ghost var front := buffer[..i];
      GroupsStep(v);
      buffer[i] := Continued(v);
      assert buffer[..i + 1] == front + [buffer[i]];
      v := Shift7(v);
      i := i + 1;
    }
    GroupsStep(v);
  }

  /** Writes the varint of a 64-bit number through a ten-byte buffer. */
  method VarintBytes(value: nat) returns (b: Bytes)
    requires value < TWO_64
    ensures b == EncVarint(value)
  {
    hide Groups, EncVarint, Last;
    if value <= 0x7F {
      VarintStep(value);
      return [value];
    }
    var buffer := new Byte[10](_ => 0);
    VarintFitsTen(value);
    GroupsAreVarint(value);
    var i := FillGroups(value, buffer);
    ghost var front := buffer[..i - 1];
    buffer[i - 1] := Last(buffer[i - 1]);
    assert buffer[..i] == front + [buffer[i - 1]];
    return buffer[..i];
  }

  lemma GroupsStep(v: nat)
    ensures Groups(v) == if v == 0 then [] else [Continued(v)] + Groups(Shift7(v))
  {
  }

  lemma VarintStep(v: nat)
    ensures EncVarint(v) == if v < 0x80 then [v] else [Continued(v)] + EncVarint(Shift7(v))
  {
  }

  // ----- Decoding -----

  /** The seven bits of the number that a byte carries. */
  function Payload(b: Byte): (d: nat)
    ensures d < 0x80 && (b < 0x80 ==> d == b)
  {
    b % 0x80
  }

  /** A shift to the left, before it is cut to a word. */
  function Shl(d: nat, k: nat): nat { d * Pow2(k) }

  function Word32(n: nat): (r: nat)
    ensures r < TWO_32 && (n < TWO_32 ==> r == n)
  {
    n % TWO_32
  }

  function Word64(n: nat): (r: nat)
    ensures r < TWO_64 && (n < TWO_64 ==> r == n)
  {
    n % TWO_64
  }

  /** A decoded number and the input behind it. */
  datatype Got = Got(value: nat, rest: Bytes)

  /** The 64-bit decoder, with `bitpos` bits already in `result`. */
  function DecVarintFrom(s: Bytes, bitpos: nat, result: nat): (r: Option<Got>)
    decreases |s|
    ensures r.Some? ==> |r.value.rest| < |s| && r.value.rest == s[|s| - |r.value.rest|..]
  {
    if bitpos >= 64 || s == [] then None
    else
      var ored := BitOr(result, Word64(Shl(Payload(s[0]), bitpos)));
      if s[0] >= 0x80 then DecVarintFrom(s[1..], bitpos + 7, ored) else Some(Got(ored, s[1..]))
  }

  function DecVarint(s: Bytes): (r: Option<Got>)
    ensures r.Some? ==> |r.value.rest| < |s| && r.value.rest == s[|s| - |r.value.rest|..]
  {
    DecVarintFrom(s, 0, 0)
  }

  lemma MulOrder(a: nat, b: nat, m: nat)
    requires a <= b
    ensures a * m <= b * m
  {
  }

  /** The low seven bits and the others, shifted separately. */
  lemma ShlSplit(w: nat, k: nat)
    ensures Shl(w, k) == Shl(w % 0x80, k) + Shl(w / 0x80, k + 7)
  {
    hide Pow2;
    Pow2Add(k, 7);
    Pow2Values();
    assert w == w % 0x80 + w / 0x80 * 0x80;
    Distribute(w % 0x80, w / 0x80, Pow2(k));
  }

  lemma Distribute(a: nat, b: nat, m: nat)
    ensures (a + b * 0x80) * m == a * m + b * (m * 0x80)
  {
  }

  lemma ShlInRange(w: nat, k: nat)
    requires Shl(w, k) < TWO_64 && (k == 0 || w > 0)
    ensures k < 64
  {
    if k >= 64 {
      Pow2Monotone(64, k);
      Pow2Values();
      MulOrder(1, w, Pow2(k));
    }
  }

  lemma ShlFits(d: nat, lo: nat, k: nat)
    requires d < 0x80 && lo < Pow2(k)
    ensures lo + Shl(d, k) < Pow2(k + 7)
  {
    hide Pow2;
    Pow2Add(k, 7);
    Pow2Values();
    MulOrder(d + 1, 0x80, Pow2(k));
    Distribute(d + 1, 0, Pow2(k));
  }

  lemma OrIsSum(lo: nat, d: nat, k: nat)
    requires lo < Pow2(k)
    ensures BitOr(lo, Shl(d, k)) == lo + Shl(d, k)
  {
    BitOrDisjoint(lo, d, k);
  }

  lemma ShlZero(w: nat)
    ensures Shl(w, 0) == w && Pow2(0) == 1
  {
  }

  lemma PayloadOf(w: nat)
    ensures EncVarint(w)[0] >= 0x80 <==> w >= 0x80
    ensures Payload(EncVarint(w)[0]) == w % 0x80
    ensures EncVarint(w)[1..] == if w < 0x80 then [] else EncVarint(Shift7(w))
  {
    hide EncVarint, Continued, Shift7, Payload;
    VarintStep(w);
    if w >= 0x80 {
      ContinuedPayload(w);
    }
  }

  lemma ContinuedPayload(w: nat)
    ensures Payload(Continued(w)) == w % 0x80
  {
  }

  /** The loop of the decoder, unrolled once. */
  lemma WideStep(s: Bytes, k: nat, lo: nat)
    requires s != [] && k < 64
    ensures DecVarintFrom(s, k, lo) ==
      var ored := BitOr(lo, Word64(Shl(Payload(s[0]), k)));
      if s[0] >= 0x80 then DecVarintFrom(s[1..], k + 7, ored) else Some(Got(ored, s[1..]))
  {
    hide BitOr, Word64, Shl, Payload;
  }

  /** Reading back the rest of a varint adds it above the bits already read. */
  lemma {:induction false} DecodesFrom(w: nat, k: nat, lo: nat, rest: Bytes)
    requires lo < Pow2(k) && Shl(w, k) < TWO_64 && (k == 0 || w > 0)
    ensures DecVarintFrom(EncVarint(w) + rest, k, lo) == Some(Got(lo + Shl(w, k), rest))
    decreases w
  {
    hide BitOr, Pow2, Shl, Payload, Word64, DecVarintFrom, EncVarint;
    var s, d, v := EncVarint(w) + rest, w % 0x80, Shift7(w);
    PayloadOf(w);
    ShlInRange(w, k);
    WideStep(s, k, lo);
    ShlSplit(w, k);
    OrIsSum(lo, d, k);
    if w < 0x80 {
      ShlOfZero(k + 7);
      assert s[1..] == rest;
    } else {
      assert s[1..] == EncVarint(v) + rest;
      ShlFits(d, lo, k);
      DecodesFrom(v, k + 7, lo + Shl(d, k), rest);
    }
  }

  lemma ShlOfZero(k: nat)
    ensures Shl(0, k) == 0
  {
  }

  /** Decoding a varint yields the number and consumes exactly its bytes. */
  lemma VarintRoundTrip(v: nat, rest: Bytes)
    requires v < TWO_64
    ensures DecVarint(EncVarint(v) + rest) == Some(Got(v, rest))
  {
    ShlZero(v);
    DecodesFrom(v, 0, 0, rest);
  }

  // ----- The 32-bit decoder -----

  /** The bit position is an eight-bit counter. */
  function NextPos(bitpos: nat): nat { (bitpos + 7) % 0x100 }

  /** One byte of the 32-bit decoder; beyond bit 32 only padding and sign extension are let through. */
  function NarrowByte(b: Byte, bitpos: nat, result: nat): Option<nat> {
    if bitpos < 32 then Some(BitOr(result, Word32(Shl(Payload(b), bitpos))))
    else
      var signExtension := if bitpos < 63 then 0xFF else 0x01;
      if Payload(b) != 0 && (result / 0x8000_0000 == 0 || b != signExtension) then None else Some(result)
  }

  /** The loop of the 32-bit decoder. */
  function DecVarint32More(s: Bytes, bitpos: nat, result: nat): (r: Option<Got>)
    decreases |s|
    ensures r.Some? ==> |r.value.rest| < |s| && r.value.rest == s[|s| - |r.value.rest|..]
  {
    if s == [] then None
    else match NarrowByte(s[0], bitpos, result)
      case None => None
      case Some(r) =>
        if s[0] >= 0x80 then DecVarint32More(s[1..], NextPos(bitpos), r)
        else if NextPos(bitpos) == 35 && s[0] / 0x10 != 0 then None
        else Some(Got(r, s[1..]))
  }

  function DecVarint32(s: Bytes): (r: Option<Got>)
    ensures r.Some? ==> |r.value.rest| < |s| && r.value.rest == s[|s| - |r.value.rest|..]
  {
    if s == [] then None
    else if s[0] < 0x80 then Some(Got(s[0], s[1..]))
    else DecVarint32More(s[1..], 7, Payload(s[0]))
  }

  /** The encoding ends, with a byte whose top bit is clear, after at most `n` bytes. */
  predicate EndsWithin(s: Bytes, n: nat)
    decreases n
  {
    n > 0 && s != [] && (s[0] < 0x80 || EndsWithin(s[1..], n - 1))
  }

  /**
   The encoding ends after at most `n` bytes, and the `n`-th, if there is one, is zero or one: of the tenth byte
   the 64-bit decoder keeps one bit and drops the others without a word.
   */
  predicate Bounded(s: Bytes, n: nat)
    decreases n
  {
    n > 0 && s != [] && (if s[0] < 0x80 then n > 1 || s[0] <= 1 else Bounded(s[1..], n - 1))
  }

  /** What the two decoders make of the same bytes. */
  predicate Agree(narrow: Option<Got>, wide: Option<Got>) {
    && wide.Some?
    && (narrow.Some? ==> narrow.value.value == Word32(wide.value.value) && narrow.value.rest == wide.value.rest)
    && (wide.value.value < TWO_32 ==> narrow == wide)
  }

  lemma PowersOfSeven()
    ensures Pow2(63) == 0x8000_0000_0000_0000 && Pow2(35) == 0x8_0000_0000
  {
    hide Pow2;
    Pow2Values();
    OneBit();
    Pow2Add(63, 1);
    Pow2Add(28, 7);
  }

  lemma OneBit()
    ensures Pow2(1) == 2
  {
  }

  // What or-ing one more payload `d` at bit `k` does, by where it lands.

  lemma OrPayload(lo: nat, d: nat, k: nat)
    requires k <= 56 && lo < Pow2(k) && d < 0x80
    ensures BitOr(lo, Word64(Shl(d, k))) == lo + Shl(d, k) < Pow2(k + 7)
  {
    hide BitOr, Pow2, Shl, Word64;
    Pow2Values();
    Pow2Monotone(k + 7, 64);
    ShlFits(d, lo, k);
    OrIsSum(lo, d, k);
  }

  /** Below bit 28 a payload fits a 32-bit word. */
  lemma OrPayload32(lo: nat, d: nat, k: nat)
    requires k <= 21 && lo < Pow2(k) && d < 0x80
    ensures BitOr(lo, Word32(Shl(d, k))) == lo + Shl(d, k) < TWO_32
  {
    hide BitOr, Pow2, Shl, Word32;
    Pow2Values();
    Pow2Monotone(k + 7, 28);
    ShlFits(d, lo, k);
    OrIsSum(lo, d, k);
  }

  /** The payload at bit 28, of which a 32-bit word keeps four bits. */
  lemma TruncatedPayload(lo: nat, d: nat)
    requires lo < Pow2(28) && d < 0x80
    ensures BitOr(lo, Word32(Shl(d, 28))) == Word32(lo + Shl(d, 28))
    ensures lo + Shl(d, 28) < TWO_32 <==> d < 0x10
  {
    hide BitOr, Pow2;
    Pow2Values();
    TruncateWord(lo, d);
    BitOrDisjoint(lo, d % 0x10, 28);
  }

  lemma TruncateWord(lo: nat, d: nat)
    requires lo < 0x1000_0000
    ensures d * 0x1000_0000 % TWO_32 == d % 0x10 * 0x1000_0000
    ensures (lo + d * 0x1000_0000) % TWO_32 == lo + d % 0x10 * 0x1000_0000
  {
    var q, r := d / 0x10, d % 0x10;
    assert lo + d * 0x1000_0000 == lo + r * 0x1000_0000 + q * TWO_32;
    assert d * 0x1000_0000 == r * 0x1000_0000 + q * TWO_32;
    ModPlusMultiple(r * 0x1000_0000, q);
    ModPlusMultiple(lo + r * 0x1000_0000, q);
  }

  lemma ModPlusMultiple(a: nat, q: nat)
    ensures (a + q * TWO_32) % TWO_32 == a % TWO_32
  {
  }

  /** Above bit 32 a payload leaves the low word alone, and makes the number larger than a word. */
  lemma HighPayload(lo: nat, d: nat, k: nat)
    requires k >= 32
    ensures Word32(lo + Shl(d, k)) == Word32(lo)
    ensures if d == 0 then Shl(d, k) == 0 else Shl(d, k) >= TWO_32
  {
    hide Pow2;
    Pow2Add(32, k - 32);
    Pow2Values();
    Reassociate(d, Pow2(k - 32));
    ModPlusMultiple(lo, d * Pow2(k - 32));
    if d > 0 {
      MulOrder(1, d, Pow2(k - 32));
    }
  }

  lemma Reassociate(d: nat, m: nat)
    ensures d * (TWO_32 * m) == d * m * TWO_32
  {
  }

  /** The tenth byte brings the top bit. */
  lemma TopPayload(lo: nat, d: nat)
    requires lo < Pow2(63) && d <= 1
    ensures BitOr(lo, Word64(Shl(d, 63))) == lo + Shl(d, 63)
  {
    hide BitOr, Pow2, Word64;
    PowersOfSeven();
    OrIsSum(lo, d, 63);
  }

  // The 32-bit loop, unrolled once.

  lemma NarrowStepLow(s: Bytes, k: nat, lo: nat)
    requires s != [] && k < 32
    ensures DecVarint32More(s, k, lo) ==
      var ored := BitOr(lo, Word32(Shl(Payload(s[0]), k)));
      if s[0] >= 0x80 then DecVarint32More(s[1..], k + 7, ored)
      else if k == 28 && s[0] / 0x10 != 0 then None else Some(Got(ored, s[1..]))
  {
    hide BitOr, Word32, Shl, Payload;
  }

  lemma NarrowByteHigh(b: Byte, k: nat, lo: nat)
    requires 32 <= k
    ensures NarrowByte(b, k, lo) ==
      if Payload(b) != 0 && (lo / 0x8000_0000 == 0 || b != (if k < 63 then 0xFF else 0x01)) then None else Some(lo)
  {
    hide BitOr, Word32, Shl, Payload;
  }

  lemma NextPosHigh(k: nat)
    requires 32 <= k <= 252
    ensures NextPos(k) != 35 && (k < 249 ==> NextPos(k) == k + 7)
  {
  }

  lemma NarrowStepHigh(s: Bytes, k: nat, lo: nat)
    requires s != [] && 32 <= k <= 252 && (k < 249 || s[0] < 0x80 || s[1..] == [])
    ensures DecVarint32More(s, k, lo) ==
      if Payload(s[0]) != 0 && (lo / 0x8000_0000 == 0 || s[0] != (if k < 63 then 0xFF else 0x01)) then None
      else if s[0] >= 0x80 then DecVarint32More(s[1..], k + 7, lo) else Some(Got(lo, s[1..]))
  {
    hide NarrowByte, Payload, NextPos;
    NarrowByteHigh(s[0], k, lo);
    NextPosHigh(k);
  }

  /** With `k` bits read, the two decoders agree on what follows, and the number only grows. */
  ghost predicate InStep(s: Bytes, k: nat, wide: nat, narrow: nat) {
    var w, n := DecVarintFrom(s, k, wide), DecVarint32More(s, k, narrow);
    && Agree(n, w) && w.value.value >= wide
    && (k < 35 && EndsWithin(s, 5 - k / 7) && n.Some? ==> w.value.value < TWO_32)
  }

  lemma EndsStep(s: Bytes, n: nat)
    requires n > 0 && s != []
    ensures EndsWithin(s, n) <==> s[0] < 0x80 || EndsWithin(s[1..], n - 1)
  {
  }

  lemma InStepLow(s: Bytes, k: nat, lo: nat)
    requires s != [] && k % 7 == 0 && k <= 21 && lo < Pow2(k)
    requires var next := lo + Shl(Payload(s[0]), k); s[0] >= 0x80 ==> InStep(s[1..], k + 7, next, next)
    ensures InStep(s, k, lo, lo)
  {
    hide DecVarintFrom, DecVarint32More, BitOr, Pow2, Shl, Payload, Word32, Word64, EndsWithin;
    WideStep(s, k, lo);
    NarrowStepLow(s, k, lo);
    OrPayload(lo, Payload(s[0]), k);
    OrPayload32(lo, Payload(s[0]), k);
    EndsStep(s, 5 - k / 7);
    assert (k + 7) / 7 == k / 7 + 1;
  }

  lemma InStepMiddle(s: Bytes, lo: nat)
    requires s != [] && lo < Pow2(28)
    requires var next := lo + Shl(Payload(s[0]), 28); s[0] >= 0x80 ==> InStep(s[1..], 35, next, Word32(next))
    ensures InStep(s, 28, lo, lo)
  {
    hide DecVarintFrom, DecVarint32More, BitOr, Pow2, Shl, Payload, Word32, Word64, EndsWithin;
    WideStep(s, 28, lo);
    NarrowStepLow(s, 28, lo);
    OrPayload(lo, Payload(s[0]), 28);
    TruncatedPayload(lo, Payload(s[0]));
    EndsStep(s, 1);
    NoneWithinZero(s[1..]);
  }

  lemma NoneWithinZero(s: Bytes)
    ensures !EndsWithin(s, 0)
  {
  }

  lemma InStepHigh(s: Bytes, k: nat, wide: nat)
    requires s != [] && 35 <= k <= 56 && wide < Pow2(k)
    requires var next := wide + Shl(Payload(s[0]), k); s[0] >= 0x80 ==> InStep(s[1..], k + 7, next, Word32(next))
    ensures InStep(s, k, wide, Word32(wide))
  {
    hide DecVarintFrom, DecVarint32More, BitOr, Pow2, Shl, Payload, Word32, Word64, EndsWithin;
    WideStep(s, k, wide);
    NarrowStepHigh(s, k, Word32(wide));
    OrPayload(wide, Payload(s[0]), k);
    HighPayload(wide, Payload(s[0]), k);
  }

  lemma InStepTop(s: Bytes, wide: nat)
    requires s != [] && s[0] <= 1 && wide < Pow2(63)
    ensures InStep(s, 63, wide, Word32(wide))
  {
    hide DecVarintFrom, DecVarint32More, BitOr, Pow2, Shl, Payload, Word32, Word64, EndsWithin;
    WideStep(s, 63, wide);
    NarrowStepHigh(s, 63, Word32(wide));
    TopPayload(wide, s[0]);
    HighPayload(wide, s[0], 63);
  }

  /** The decoders in lockstep, `k` bits into an encoding of at most ten bytes. */
  lemma {:induction false} Lockstep(s: Bytes, k: nat, wide: nat, narrow: nat)
    requires k % 7 == 0 && 7 <= k <= 63 && Bounded(s, 10 - k / 7) && wide < Pow2(k)
    requires narrow == if k <= 28 then wide else Word32(wide)
    ensures InStep(s, k, wide, narrow)
    decreases |s|
  {
    hide InStep, Pow2, Shl, Payload, Word32;
    if k == 63 {
      InStepTop(s, wide);
    } else {
      var next := wide + Shl(Payload(s[0]), k);
      if s[0] >= 0x80 {
        ShlFits(Payload(s[0]), wide, k);
        Lockstep(s[1..], k + 7, next, if k <= 21 then next else Word32(next));
      }
      if k <= 21 {
        InStepLow(s, k, wide);
      } else if k == 28 {
        InStepMiddle(s, wide);
      } else {
        InStepHigh(s, k, wide);
      }
    }
  }

  /**
   Encodings of at most five bytes: the 32-bit decoder succeeds exactly when the number is below 2^32, and
   then both decoders yield the same number and the same rest.
   */
  lemma ShortVarintsAgree(s: Bytes)
    requires EndsWithin(s, 5)
    ensures DecVarint(s).Some?
    ensures DecVarint32(s).Some? <==> DecVarint(s).value.value < TWO_32
    ensures DecVarint32(s).Some? ==> DecVarint32(s) == DecVarint(s)
  {
    hide DecVarintFrom, DecVarint32More, Pow2, Payload, Word32;
    FirstByte(s);
    if s[0] >= 0x80 {
      Pow2Values();
      EndsLater(s[1..], 4, 9);
      Lockstep(s[1..], 7, Payload(s[0]), Payload(s[0]));
    }
  }

  /**
   Longer encodings, up to ten bytes: every number below 2^32 is read, whatever its padding; and what is read
   is the number modulo 2^32, which lets sign-extended negative numbers through.
   */
  lemma LongVarintsAgree(s: Bytes)
    requires Bounded(s, 10)
    ensures Agree(DecVarint32(s), DecVarint(s))
  {
    hide DecVarintFrom, DecVarint32More, Pow2, Payload, Word32;
    FirstByte(s);
    if s[0] >= 0x80 {
      Pow2Values();
      Lockstep(s[1..], 7, Payload(s[0]), Payload(s[0]));
    }
  }

  lemma FirstByte(s: Bytes)
    requires s != []
    ensures DecVarint(s) == if s[0] >= 0x80 then DecVarintFrom(s[1..], 7, Payload(s[0])) else Some(Got(s[0], s[1..]))
  {
    hide Shl, Payload, Word64;
    WideStep(s, 0, 0);
    ShlZero(Payload(s[0]));
    assert BitOr(0, Payload(s[0])) == Payload(s[0]);
  }

  lemma {:induction false} EndsLater(s: Bytes, m: nat, n: nat)
    requires EndsWithin(s, m) && m < n
    ensures Bounded(s, n)
    decreases m
  {
    if s[0] >= 0x80 {
      EndsLater(s[1..], m - 1, n - 1);
    }
  }

  /**
   Beyond five bytes the 32-bit decoder can drop bits of the fifth and still succeed, so the exact agreement
   does not extend to longer encodings.
   */
  lemma LongVarintLosesBits()
    ensures var s: Bytes := [0x80] + ([0x80] + ([0x80] + ([0x80] + [0xF0, 0x00])));
      DecVarint32(s) == Some(Got(0, [])) && DecVarint(s) == Some(Got(0x7_0000_0000, []))
  {
    hide DecVarintFrom, DecVarint32More, BitOr, Pow2, Shl, Word32, Word64;
    var t: Bytes := [0xF0, 0x00];
    LostBits(t);
    ZeroByte(t, 21);
    ZeroByte([0x80] + t, 14);
    ZeroByte([0x80] + ([0x80] + t), 7);
    var u: Bytes := [0x80] + ([0x80] + ([0x80] + t));
    var s: Bytes := [0x80] + u;
    FirstByte(s);
    assert s[1..] == u;
  }

  lemma LostBits(t: Bytes)
    requires t == [0xF0, 0x00]
    ensures DecVarint32More(t, 28, 0) == Some(Got(0, [])) && DecVarintFrom(t, 28, 0) == Some(Got(0x7_0000_0000, []))
  {
    hide DecVarintFrom, DecVarint32More, BitOr, Pow2, Shl, Word32, Word64;
    WideStep(t, 28, 0);
    NarrowStepLow(t, 28, 0);
    OrZero(0x70);
    Pow2Values();
    OrPayload(0, 0x70, 28);
    var last := t[1..];
    WideStep(last, 35, 0x7_0000_0000);
    NarrowStepHigh(last, 35, 0);
    ShlOfZero(35);
    NoOr(0x7_0000_0000);
  }

  lemma ZeroByte(t: Bytes, k: nat)
    requires k < 28
    ensures DecVarintFrom([0x80] + t, k, 0) == DecVarintFrom(t, k + 7, 0)
    ensures DecVarint32More([0x80] + t, k, 0) == DecVarint32More(t, k + 7, 0)
  {
    hide DecVarintFrom, DecVarint32More, BitOr, Pow2, Shl, Word32, Word64;
    var s: Bytes := [0x80] + t;
    assert s[1..] == t;
    WideStep(s, k, 0);
    NarrowStepLow(s, k, 0);
    ShlOfZero(k);
    NoOr(0);
  }

  lemma NoOr(n: nat)
    ensures BitOr(n, 0) == n
  {
  }

  /** The fifth payload 0x70 leaves nothing in a word and bits 32 to 34 in two. */
  lemma OrZero(d: nat)
    requires d == 0x70
    ensures Shl(d, 28) == 0x7_0000_0000 && BitOr(0, Word32(Shl(d, 28))) == 0 && Pow2(28) > 0
  {
    Pow2Values();
  }

  lemma EndsCons(b: Byte, s: Bytes, n: nat)
    requires b < 0x80 || EndsWithin(s, n)
    ensures EndsWithin([b] + s, n + 1)
  {
    assert ([b] + s)[1..] == s;
  }

  lemma {:induction false} VarintEnds(v: nat, rest: Bytes)
    ensures EndsWithin(EncVarint(v) + rest, |EncVarint(v)|)
  {
    hide Continued, Shift7, EncVarint, EndsWithin;
    VarintStep(v);
    if v < 0x80 {
      EndsCons(v, rest, 0);
    } else {
      var tail := EncVarint(Shift7(v));
      VarintEnds(Shift7(v), rest);
      EndsCons(Continued(v), tail + rest, |tail|);
      assert EncVarint(v) + rest == [Continued(v)] + (tail + rest);
    }
  }

  lemma {:induction false} EndsMonotone(s: Bytes, m: nat, n: nat)
    requires EndsWithin(s, m) && m <= n
    ensures EndsWithin(s, n)
    decreases m
  {
    if s[0] >= 0x80 {
      EndsMonotone(s[1..], m - 1, n - 1);
    }
  }

  /** The 32-bit decoder reads back every 32-bit number. */
  lemma Varint32RoundTrip(v: nat, rest: Bytes)
    requires v < TWO_32
    ensures DecVarint32(EncVarint(v) + rest) == Some(Got(v, rest))
  {
    hide DecVarint, DecVarint32, EncVarint, EndsWithin, Pow2, BitLength;
    VarintRoundTrip(v, rest);
    VarintEnds(v, rest);
    VarintLength(v);
    Pow2Values();
    SmallBitLengthBy(v, 32);
    EndsMonotone(EncVarint(v) + rest, |EncVarint(v)|, 5);
    ShortVarintsAgree(EncVarint(v) + rest);
  }

  // ----- Zig-zag numbers -----

  /** `(uint64_t)v << 1`, complemented for negative numbers. */
  function ZigZag(v: int): (u: nat)
    requires -0x8000_0000_0000_0000 <= v < 0x8000_0000_0000_0000
    ensures u < TWO_64
  {
    if v < 0 then TWO_64 - 1 - v % TWO_64 * 2 % TWO_64 else v * 2 % TWO_64
  }

  /** A 64-bit word as a signed number. */
  function Signed64(u: nat): int
    requires u < TWO_64
  {
    if u < 0x8000_0000_0000_0000 then u else u - TWO_64
  }

  function UnZigZag(u: nat): int
    requires u < TWO_64
  {
    if u % 2 == 1 then Signed64(TWO_64 - 1 - u / 2) else Signed64(u / 2)
  }

  /** Zig-zag round-trips every signed 64-bit number, the smallest included. */
  lemma ZigZagRoundTrip(v: int)
    requires -0x8000_0000_0000_0000 <= v < 0x8000_0000_0000_0000
    ensures UnZigZag(ZigZag(v)) == v
  {
    if v < 0 {
      assert v % TWO_64 == v + TWO_64;
      assert (v + TWO_64) * 2 % TWO_64 == v * 2 + TWO_64;
    }
  }

  /** Small magnitudes have short encodings: that is what zig-zag is for. */
  lemma ZigZagValue(v: int)
    requires -0x8000_0000_0000_0000 <= v < 0x8000_0000_0000_0000
    ensures ZigZag(v) == if v < 0 then -2 * v - 1 else 2 * v
  {
    if v < 0 {
      assert v % TWO_64 == v + TWO_64;
      assert (v + TWO_64) * 2 % TWO_64 == v * 2 + TWO_64;
    }
  }

  // ----- Fixed-width numbers -----

  /** The `k` low bytes of `v`, least significant first. */
  function LittleEndian(v: nat, k: nat): (b: Bytes)
    ensures |b| == k
  {
    if k == 0 then [] else [v % 0x100] + LittleEndian(v / 0x100, k - 1)
  }

  function FromLittleEndian(b: Bytes): nat {
    if b == [] then 0 else b[0] + 0x100 * FromLittleEndian(b[1..])
  }

  lemma {:induction false} LittleEndianRoundTrip(v: nat, k: nat)
    requires v < Pow2(8 * k)
    ensures FromLittleEndian(LittleEndian(v, k)) == v
  {
    if k > 0 {
      HighBytesFit(v, k);
      LittleEndianRoundTrip(v / 0x100, k - 1);
      assert LittleEndian(v, k)[1..] == LittleEndian(v / 0x100, k - 1);
    }
  }

  lemma HighBytesFit(v: nat, k: nat)
    requires k > 0 && v < Pow2(8 * k)
    ensures v / 0x100 < Pow2(8 * (k - 1))
  {
    hide Pow2;
    Pow2Add(8, 8 * (k - 1));
    Pow2Eight();
    var p := Pow2(8 * (k - 1));
    assert Pow2(8 * k) == 0x100 * p;
  }

  lemma Pow2Eight()
    ensures Pow2(8) == 0x100
  {
    assert Pow2(4) == 0x10;
  }
}
