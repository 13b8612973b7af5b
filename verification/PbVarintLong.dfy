/**
 Long varints. For encodings of more than five bytes the two decoders need not agree; which bytes decide it is said
 here for every input, those included on which the 32-bit decoder's eight-bit position wraps.
 */
module PbVarintLong {
  import opened Wrappers
  import opened PbVarint

  /** The first five bytes all have the top bit set. */
  predicate Long(s: Bytes) {
    |s| >= 5 && s[0] >= 0x80 && s[1] >= 0x80 && s[2] >= 0x80 && s[3] >= 0x80 && s[4] >= 0x80
  }

  /** What the byte adds to the 32-bit number at bit `k` reaches bit 31. */
  predicate SetsSign(b: Byte, k: nat) {
    k < 32 && Word32(Shl(Payload(b), k)) >= 0x8000_0000
  }

  /**
   From bit `k` on, every byte is padding, or sign extension of a number whose bit 31 is set: all ones, and a single one
   at the top. Behind 32 such bytes the position is small again, and payloads are or-ed in once more, whatever they are;
   only a last byte at bit 28 has to keep within the word.
   */
  predicate Passes(s: Bytes, k: nat, negative: bool)
    decreases |s|
  {
    && s != []
    && (if k < 32 then k != 28 || s[0] >= 0x80 || s[0] / 0x10 == 0
        else Payload(s[0]) == 0 || (negative && s[0] == if k < 63 then 0xFF else 0x01))
    && (s[0] >= 0x80 ==> Passes(s[1..], NextPos(k), negative || SetsSign(s[0], k)))
  }

  /** From bit `k` on, nothing is added to the number: every payload is zero, and the tenth byte's lowest bit is. */
  predicate Padding(s: Bytes, k: nat)
    decreases |s|
  {
    && s != [] && k < 64
    && (if k == 63 then Payload(s[0]) % 2 == 0 else Payload(s[0]) == 0)
    && (s[0] >= 0x80 ==> Padding(s[1..], k + 7))
  }

  /** What follows the encoding. */
  function Behind(s: Bytes): Bytes {
    if s == [] then [] else if s[0] < 0x80 then s[1..] else Behind(s[1..])
  }

  // ----- The 32-bit decoder -----

  lemma {:induction false} OrTop(a: nat, b: nat, k: nat)
    requires k > 0 && a < Pow2(k) && b < Pow2(k)
    ensures BitOr(a, b) < Pow2(k)
    ensures BitOr(a, b) >= Pow2(k - 1) <==> a >= Pow2(k - 1) || b >= Pow2(k - 1)
  {
    if k > 1 && a > 0 && b > 0 {
      OrTop(a / 2, b / 2, k - 1);
    }
  }

  lemma OrSign(a: nat, b: nat)
    requires a < TWO_32 && b < TWO_32
    ensures BitOr(a, b) < TWO_32
    ensures BitOr(a, b) >= 0x8000_0000 <==> a >= 0x8000_0000 || b >= 0x8000_0000
  {
    hide BitOr, Pow2;
    Pow2Values();
    OneBit();
    Pow2Add(31, 1);
    OrTop(a, b, 32);
  }

  /** One byte of the decoder, as far as the sign and success go. */
  lemma NarrowByteSign(b: Byte, k: nat, lo: nat)
    requires lo < TWO_32 && k < 0x100
    ensures var r, negative := NarrowByte(b, k, lo), lo >= 0x8000_0000;
      && (r.None? <==> k >= 32 && Payload(b) != 0 && !(negative && b == if k < 63 then 0xFF else 0x01))
      && (r.Some? ==> r.value < TWO_32 && (r.value >= 0x8000_0000 <==> negative || SetsSign(b, k)))
  {
    hide BitOr, Shl, Payload, Word32;
    if k < 32 {
      OrSign(lo, Word32(Shl(Payload(b), k)));
    } else {
      NarrowByteHigh(b, k, lo);
    }
  }

  lemma NextPosIs35(k: nat)
    requires k < 0x100
    ensures NextPos(k) < 0x100 && (NextPos(k) == 35 <==> k == 28)
  {
  }

  lemma {:induction false} NarrowPasses(s: Bytes, k: nat, lo: nat)
    requires lo < TWO_32 && k < 0x100
    ensures var r := DecVarint32More(s, k, lo);
      && (r.Some? <==> Passes(s, k, lo >= 0x8000_0000))
      && (r.Some? ==> r.value.value < TWO_32 && r.value.rest == Behind(s))
    decreases |s|
  {
    hide NarrowByte, Payload, SetsSign, NextPos;
    if s != [] {
      NarrowByteSign(s[0], k, lo);
      NextPosIs35(k);
      if s[0] >= 0x80 && NarrowByte(s[0], k, lo).Some? {
        NarrowPasses(s[1..], NextPos(k), NarrowByte(s[0], k, lo).value);
      }
    }
  }

  /** Padding leaves the number as it is. */
  lemma {:induction false} NarrowPadding(s: Bytes, k: nat, lo: nat)
    requires 35 <= k && k % 7 == 0 && Padding(s, k) && DecVarint32More(s, k, lo).Some?
    ensures DecVarint32More(s, k, lo).value.value == lo
    decreases |s|
  {
    hide NarrowByte, Payload;
    NarrowStepHigh(s, k, lo);
    if s[0] >= 0x80 {
      NarrowPadding(s[1..], k + 7, lo);
    }
  }

  // ----- The 64-bit decoder above bit 32 -----

  /** Of the tenth byte, one bit is kept. */
  lemma TopBit(lo: nat, d: nat)
    requires lo < Pow2(63) && d < 0x80
    ensures BitOr(lo, Word64(Shl(d, 63))) == lo + Shl(d % 2, 63)
    ensures Shl(d % 2, 63) == if d % 2 == 0 then 0 else 0x8000_0000_0000_0000
  {
    hide BitOr, Pow2;
    PowersOfSeven();
    TopPayload(lo, d % 2);
    assert d * 0x8000_0000_0000_0000 == d % 2 * 0x8000_0000_0000_0000 + d / 2 * TWO_64;
    DropMultiple(d % 2 * 0x8000_0000_0000_0000, d / 2);
  }

  lemma DropMultiple(a: nat, q: nat)
    ensures (a + q * TWO_64) % TWO_64 == a % TWO_64
  {
  }

  /** What is read from bit `k` on is a number below 2^32. */
  predicate Small(got: Option<Got>) {
    got.Some? && got.value.value < TWO_32
  }

  lemma {:induction false} WideAbove(s: Bytes, k: nat, lo: nat)
    requires 35 <= k && k % 7 == 0 && (k <= 63 ==> lo < Pow2(k))
    ensures Small(DecVarintFrom(s, k, lo)) <==> lo < TWO_32 && Padding(s, k)
    ensures Small(DecVarintFrom(s, k, lo)) ==> DecVarintFrom(s, k, lo) == Some(Got(lo, Behind(s)))
    decreases |s|
  {
    if k >= 64 {
      PastTheEnd(s, k, lo);
    } else if s != [] {
      WideStepAbove(s, k, lo);
    }
  }

  lemma {:induction false} WideStepAbove(s: Bytes, k: nat, lo: nat)
    requires 35 <= k <= 63 && k % 7 == 0 && lo < Pow2(k) && s != []
    ensures Small(DecVarintFrom(s, k, lo)) <==> lo < TWO_32 && Padding(s, k)
    ensures Small(DecVarintFrom(s, k, lo)) ==> DecVarintFrom(s, k, lo) == Some(Got(lo, Behind(s)))
    decreases |s|, 0
  {
    hide DecVarintFrom, BitOr, Pow2, Shl, Payload, Word64;
    var d := Payload(s[0]);
    WideStep(s, k, lo);
    if k == 63 {
      TopBit(lo, d);
      PastTheEnd(s[1..], 70, lo + Shl(d % 2, 63));
    } else {
      OrPayload(lo, d, k);
      HighPayload(lo, d, k);
      if s[0] >= 0x80 {
        WideAbove(s[1..], k + 7, lo + Shl(d, k));
      }
    }
  }

  lemma PastTheEnd(s: Bytes, k: nat, lo: nat)
    requires k >= 64
    ensures DecVarintFrom(s, k, lo) == None && !Padding(s, k)
  {
  }

  // ----- The first five bytes -----

  lemma Tails(s: Bytes)
    requires |s| >= 5
    ensures s[1..][1..] == s[2..] && s[2..][1..] == s[3..] && s[3..][1..] == s[4..] && s[4..][1..] == s[5..]
  {
  }

  /** With `lo` read and `t` to come, below bit 28 the decoders are in the same state. */
  ghost predicate BothAt(s: Bytes, t: Bytes, k: nat, lo: nat) {
    lo < Pow2(k) && DecVarint(s) == DecVarintFrom(t, k, lo) && DecVarint32(s) == DecVarint32More(t, k, lo)
  }

  lemma LowStep(s: Bytes, t: Bytes, k: nat, lo: nat) returns (next: nat)
    requires BothAt(s, t, k, lo) && t != [] && t[0] >= 0x80 && k <= 21
    ensures BothAt(s, t[1..], k + 7, next)
  {
    hide DecVarint, DecVarint32, DecVarintFrom, DecVarint32More, BitOr, Pow2, Shl, Payload, Word32, Word64;
    WideStep(t, k, lo);
    NarrowStepLow(t, k, lo);
    OrPayload(lo, Payload(t[0]), k);
    OrPayload32(lo, Payload(t[0]), k);
    next := lo + Shl(Payload(t[0]), k);
  }

  lemma FirstFour(s: Bytes) returns (lo: nat)
    requires Long(s)
    ensures BothAt(s, s[4..], 28, lo)
  {
    hide BothAt;
    Tails(s);
    SecondByte(s);
    lo := LowStep(s, s[1..], 7, Payload(s[0]));
    lo := LowStep(s, s[2..], 14, lo);
    lo := LowStep(s, s[3..], 21, lo);
  }

  lemma SecondByte(s: Bytes)
    requires s != [] && s[0] >= 0x80
    ensures BothAt(s, s[1..], 7, Payload(s[0]))
  {
    hide DecVarint, DecVarintFrom, DecVarint32More, Pow2, Payload;
    FirstByte(s);
    Pow2Values();
  }

  /** Of the fifth byte's payload the 32-bit decoder keeps four bits, the highest of which is the sign. */
  lemma FifthByte(s: Bytes, lo: nat)
    requires s != [] && s[0] >= 0x80 && lo < Pow2(28)
    ensures var d := Payload(s[0]);
      var next := lo + Shl(d, 28);
      && next < Pow2(35) && (next < TWO_32 <==> d < 0x10)
      && (Word32(next) >= 0x8000_0000 <==> d % 0x10 >= 8)
      && DecVarintFrom(s, 28, lo) == DecVarintFrom(s[1..], 35, next)
      && DecVarint32More(s, 28, lo) == DecVarint32More(s[1..], 35, Word32(next))
  {
    hide DecVarintFrom, DecVarint32More, BitOr, Pow2, Payload, Word64;
    var d := Payload(s[0]);
    WideStep(s, 28, lo);
    NarrowStepLow(s, 28, lo);
    OrPayload(lo, d, 28);
    TruncatedPayload(lo, d);
    Pow2Values();
    TruncateWord(lo, d);
  }

  /** The number that the decoders have put together after five bytes. */
  lemma FirstFive(s: Bytes) returns (n: nat)
    requires Long(s)
    ensures n < Pow2(35) && (n < TWO_32 <==> Payload(s[4]) < 0x10)
    ensures Word32(n) >= 0x8000_0000 <==> Payload(s[4]) % 0x10 >= 8
    ensures DecVarint(s) == DecVarintFrom(s[5..], 35, n) && DecVarint32(s) == DecVarint32More(s[5..], 35, Word32(n))
  {
    hide DecVarint, DecVarint32, DecVarintFrom, DecVarint32More, Pow2, Shl, Payload, Word32;
    var lo := FirstFour(s);
    Tails(s);
    FifthByte(s[4..], lo);
    n := lo + Shl(Payload(s[4]), 28);
  }

  // ----- Both decoders -----

  /** The bytes after the fifth let the 32-bit decoder through. */
  predicate PassesBehindFive(s: Bytes)
    requires Long(s)
  {
    Passes(s[5..], 35, Payload(s[4]) % 0x10 >= 8)
  }

  /** The bytes from the fifth on keep the number below 2^32. */
  predicate SmallByBytes(s: Bytes)
    requires Long(s)
  {
    Payload(s[4]) < 0x10 && Padding(s[5..], 35)
  }

  /** Of the long encodings the 32-bit decoder reads exactly those whose further bytes are let through. */
  lemma NarrowReadsExactly(s: Bytes)
    requires Long(s)
    ensures DecVarint32(s).Some? <==> PassesBehindFive(s)
    ensures DecVarint32(s).Some? ==> DecVarint32(s).value.rest == Behind(s[5..])
  {
    hide DecVarint, DecVarint32, DecVarint32More, Pow2, Payload, Word32, Passes, Behind;
    var n := FirstFive(s);
    NarrowPasses(s[5..], 35, Word32(n));
  }

  /** Of the long encodings the 64-bit decoder reads a number below 2^32 from exactly those padded with zeros. */
  lemma WideIsSmallExactly(s: Bytes)
    requires Long(s)
    ensures Small(DecVarint(s)) <==> SmallByBytes(s)
  {
    hide DecVarint, DecVarint32, Pow2, Payload, Word32;
    var n := FirstFive(s);
    WideAbove(s[5..], 35, n);
  }

  /** The 32-bit decoder is the 64-bit decoder cut down to the numbers below 2^32. */
  predicate Restricts(narrow: Option<Got>, wide: Option<Got>) {
    narrow == if Small(wide) then wide else None
  }

  /** Without an end neither decoder succeeds. */
  lemma {:induction false} NeverEnds(s: Bytes, k: nat, lo: nat)
    requires forall i | 0 <= i < |s| :: s[i] >= 0x80
    ensures DecVarintFrom(s, k, lo) == None && DecVarint32More(s, k, lo) == None
    decreases |s|
  {
    hide BitOr, Shl, Payload, Word32, Word64;
    if s != [] {
      if k < 64 {
        NeverEnds(s[1..], k + 7, BitOr(lo, Word64(Shl(Payload(s[0]), k))));
      }
      if NarrowByte(s[0], k, lo).Some? {
        NeverEnds(s[1..], NextPos(k), NarrowByte(s[0], k, lo).value);
      }
    }
  }

  lemma {:induction false} NoEndWithin(s: Bytes, n: nat)
    requires !EndsWithin(s, n) && |s| < n
    ensures forall i | 0 <= i < |s| :: s[i] >= 0x80
    decreases n
  {
    if s != [] {
      NoEndWithin(s[1..], n - 1);
      forall i | 0 < i < |s|
        ensures s[i] >= 0x80
      {
        assert s[i] == s[1..][i - 1];
      }
    }
  }

  lemma {:induction false} EndsAt(s: Bytes, n: nat, i: nat)
    requires i < n && i < |s| && s[i] < 0x80
    ensures EndsWithin(s, n)
    decreases n
  {
    if i > 0 {
      EndsAt(s[1..], n - 1, i - 1);
    }
  }

  /** Where there are no five bytes and no end, neither decoder succeeds. */
  lemma Unfinished(s: Bytes)
    requires !Long(s) && !EndsWithin(s, 5)
    ensures DecVarint(s) == None && DecVarint32(s) == None
  {
    hide DecVarintFrom, DecVarint32More, EndsWithin;
    if |s| >= 5 {
      assert s[0] < 0x80 || s[1] < 0x80 || s[2] < 0x80 || s[3] < 0x80 || s[4] < 0x80;
      var i :| 0 <= i < 5 && s[i] < 0x80;
      EndsAt(s, 5, i);
    } else {
      NoEndWithin(s, 5);
      NeverEnds(s, 0, 0);
      if s != [] {
        NeverEnds(s[1..], 7, Payload(s[0]));
      }
    }
  }

  /**
   When the two decoders agree, for all inputs: on encodings of at most five bytes always, and on longer ones exactly if
   the bytes that let the 32-bit decoder through keep the number below 2^32.
   */
  lemma DecodersAgreeExactly(s: Bytes)
    ensures Restricts(DecVarint32(s), DecVarint(s))
      <==> (Long(s) ==> (PassesBehindFive(s) <==> SmallByBytes(s)))
    ensures DecVarint32(s).Some? && DecVarint32(s) == DecVarint(s)
      <==> if Long(s) then PassesBehindFive(s) && SmallByBytes(s) else Small(DecVarint(s))
  {
    hide DecVarint, DecVarint32, DecVarintFrom, DecVarint32More, Pow2, Payload, Word32, Passes, Padding, Behind;
    if Long(s) {
      var n := FirstFive(s);
      NarrowPasses(s[5..], 35, Word32(n));
      WideAbove(s[5..], 35, n);
      if Padding(s[5..], 35) && PassesBehindFive(s) {
        NarrowPadding(s[5..], 35, Word32(n));
      }
    } else {
      if EndsWithin(s, 5) {
        ShortVarintsAgree(s);
      } else {
        Unfinished(s);
      }
    }
  }

  /** Within ten bytes, the tenth at most one, zero padding is let through. */
  lemma {:induction false} PaddingPasses(s: Bytes, k: nat, negative: bool)
    requires 35 <= k <= 63 && k % 7 == 0 && Bounded(s, 10 - k / 7) && Padding(s, k)
    ensures Passes(s, k, negative)
    decreases |s|
  {
    hide Payload, SetsSign;
    if s[0] >= 0x80 {
      assert (k + 7) / 7 == k / 7 + 1;
      PaddingPasses(s[1..], k + 7, negative);
      NextPosHigh(k);
      assert !SetsSign(s[0], k) by {
        NoSignAbove(s[0], k);
      }
    } else if k == 63 {
      LastPayload(s[0]);
    }
  }

  lemma NoSignAbove(b: Byte, k: nat)
    requires k >= 32
    ensures !SetsSign(b, k)
  {
  }

  lemma LastPayload(b: Byte)
    requires b <= 1
    ensures Payload(b) % 2 == b
  {
  }

  /** So within ten bytes the 32-bit decoder fails only by reading too much: what is not zero padding and passes. */
  lemma BoundedDecodersAgreeExactly(s: Bytes)
    requires Bounded(s, 10)
    ensures Restricts(DecVarint32(s), DecVarint(s)) <==> (Long(s) && PassesBehindFive(s) ==> SmallByBytes(s))
  {
    hide DecVarint, DecVarint32, Payload, Passes, Padding, Restricts;
    DecodersAgreeExactly(s);
    if Long(s) && SmallByBytes(s) {
      BoundedBehindFive(s);
      PaddingPasses(s[5..], 35, Payload(s[4]) % 0x10 >= 8);
    }
  }

  lemma BoundedBehindFive(s: Bytes)
    requires Long(s) && Bounded(s, 10)
    ensures Bounded(s[5..], 5)
  {
    Tails(s);
    assert Bounded(s[1..], 9);
    assert Bounded(s[2..], 8);
    assert Bounded(s[3..], 7);
    assert Bounded(s[4..], 6);
  }
}
