/**
 Reassembly of one incoming handshake message (section 4.2.3 of RFC 6347). The message body is filled
 in by arbitrary, possibly overlapping fragments; a bitmask, one bit per byte, records what has arrived
 and is released when nothing is missing.
 */
module DtlsReassembly {
  import opened Wrappers
  import opened DtlsWire

  // ----- Bits of a byte -----

  function Weight(k: nat): bv8
    requires k < 8
  {
    match k
    case 0 => 0x01
    case 1 => 0x02
    case 2 => 0x04
    case 3 => 0x08
    case 4 => 0x10
    case 5 => 0x20
    case 6 => 0x40
    case 7 => 0x80
  }

  /** Bit `k` of `b`, counted from the least significant one. */
  predicate Bit(b: bv8, k: nat)
    requires k < 8
  {
    b & Weight(k) != 0
  }

  /** A byte with the bits from `start`, inclusive, to `end`, exclusive, set. */
  function BitRange(start: nat, end: nat): bv8
    requires start <= 8 && end <= 8
  {
    var one: bv32 := 1;
    ((!((one << start) - 1) & ((one << end) - 1)) & 0xff) as bv8
  }

  lemma LowBits(n: nat, k: nat)
    requires n <= 8 && k < 8
    ensures var one: bv32 := 1; (((one << n) - 1) & (Weight(k) as bv32) != 0) == (k < n)
  {
    match n { case 0 => case 1 => case 2 => case 3 => case 4 => case 5 => case 6 => case 7 => case 8 => }
  }

  /** `BitRange` sets exactly the bits of its range. */
  lemma BitRangeBit(start: nat, end: nat, k: nat)
    requires start <= 8 && end <= 8 && k < 8
    ensures Bit(BitRange(start, end), k) == (start <= k < end)
  {
    var one: bv32 := 1;
    var s, e, w := (one << start) - 1, (one << end) - 1, Weight(k);
    LowBits(start, k);
    LowBits(end, k);
    MaskedBit(s, e, k);
  }

  lemma MaskedBit(s: bv32, e: bv32, k: nat)
    requires k < 8
    ensures Bit(((!s & e) & 0xff) as bv8, k) == (s & (Weight(k) as bv32) == 0 && e & (Weight(k) as bv32) != 0)
  {
  }

  lemma OrBit(a: bv8, b: bv8, k: nat)
    requires k < 8
    ensures Bit(a | b, k) == (Bit(a, k) || Bit(b, k))
  {
  }

  lemma SameBits(a: bv8, b: bv8)
    requires forall k: nat | k < 8 :: Bit(a, k) == Bit(b, k)
    ensures a == b
  {
    assert Bit(a, 0) == Bit(b, 0) && Bit(a, 1) == Bit(b, 1) && Bit(a, 2) == Bit(b, 2) && Bit(a, 3) == Bit(b, 3);
    assert Bit(a, 4) == Bit(b, 4) && Bit(a, 5) == Bit(b, 5) && Bit(a, 6) == Bit(b, 6) && Bit(a, 7) == Bit(b, 7);
  }

  lemma DifferentBits(a: bv8, b: bv8) returns (k: nat)
    requires a != b
    ensures k < 8 && Bit(a, k) != Bit(b, k)
  {
    if forall k: nat | k < 8 :: Bit(a, k) == Bit(b, k) {
      SameBits(a, b);
    }
    k :| k < 8 && Bit(a, k) != Bit(b, k);
  }

  lemma FullByte(k: nat)
    requires k < 8
    ensures Bit(0xff, k) && !Bit(0, k)
  {
  }

  // ----- Bits of a mask -----

  /** Whether byte `i` of the message is marked in `mask`. */
  predicate BitAt(mask: seq<bv8>, i: nat)
    requires i < 8 * |mask|
  {
    Bit(mask[i / 8], i % 8)
  }

  /** Or-s `bits` into one byte of the mask. */
  method OrInto(mask: array<bv8>, at: nat, start: nat, end: nat)
    requires at < mask.Length && start <= 8 && end <= 8
    modifies mask
    ensures forall j | 0 <= j < mask.Length && j != at :: mask[j] == old(mask[j])
    ensures forall i: nat | i < 8 * mask.Length ::
      BitAt(mask[..], i) == (old(BitAt(mask[..], i)) || (i / 8 == at && start <= i % 8 < end))
  {
    mask[at] := mask[at] | BitRange(start, end);
    forall i: nat | i < 8 * mask.Length
      ensures BitAt(mask[..], i) == (old(BitAt(mask[..], i)) || (i / 8 == at && start <= i % 8 < end))
    {
      OrBit(old(mask[at]), BitRange(start, end), i % 8);
      BitRangeBit(start, end, i % 8);
    }
  }

  /** Marks the bytes from `start`, inclusive, to `end`, exclusive. */
  method MarkBits(mask: array<bv8>, start: nat, end: nat)
    requires start < end <= 8 * mask.Length
    modifies mask
    ensures forall i: nat | i < 8 * mask.Length ::
      BitAt(mask[..], i) == (old(BitAt(mask[..], i)) || start <= i < end)
  {
    if start / 8 == end / 8 {
      OrInto(mask, start / 8, start % 8, end % 8);
    } else {
      OrInto(mask, start / 8, start % 8, 8);
      for i := start / 8 + 1 to end / 8
        invariant forall k: nat | k < 8 * mask.Length ::
          BitAt(mask[..], k) == (old(BitAt(mask[..], k)) || start <= k < 8 * i)
      {
        ghost var before := mask[..];
        mask[i] := 0xff;
        forall k: nat | k < 8 * mask.Length
          ensures BitAt(mask[..], k) == (BitAt(before, k) || k / 8 == i)
        {
          FullByte(k % 8);
        }
      }
      if end % 8 != 0 {
        OrInto(mask, end / 8, 0, end % 8);
      }
    }
  }

  /** Decides whether the first `msgLen` bits are all set, given that the others are clear. */
  method AllMarked(mask: array<bv8>, msgLen: nat) returns (all: bool)
    requires 8 * mask.Length >= msgLen && mask.Length == (msgLen + 7) / 8
    requires forall i: nat | msgLen <= i < 8 * mask.Length :: !BitAt(mask[..], i)
    ensures all <==> forall i: nat | i < msgLen :: BitAt(mask[..], i)
  {
    for i := 0 to msgLen / 8
      invariant forall k: nat | k < 8 * i :: BitAt(mask[..], k)
    {
      if mask[i] != 0xff {
        ghost var k := DifferentBits(mask[i], 0xff);
        FullByte(k);
        assert !BitAt(mask[..], 8 * i + k);
        return false;
      }
      forall k: nat | 8 * i <= k < 8 * (i + 1)
        ensures BitAt(mask[..], k)
      {
        FullByte(k % 8);
      }
    }
    if msgLen % 8 != 0 {
      var last := msgLen / 8;
      var want := BitRange(0, msgLen % 8);
      forall k: nat | k < 8
        ensures Bit(want, k) == (k < msgLen % 8)
        ensures BitAt(mask[..], 8 * last + k) == Bit(mask[last], k)
      {
        BitRangeBit(0, msgLen % 8, k);
      }
      if mask[last] != want {
        ghost var k := DifferentBits(mask[last], want);
        assert BitAt(mask[..], 8 * last + k) != (k < msgLen % 8);
        return false;
      }
      forall i: nat | 8 * last <= i < msgLen
        ensures BitAt(mask[..], i)
      {
        assert i / 8 == last && Bit(want, i % 8);
      }
    }
    return true;
  }

  // ----- One message -----

  /**
   What is known of an incoming message: its header and, for every byte of its body, the byte if it has
   arrived. Bytes that have not arrived have no value.
   */
  datatype Frag = Frag(typ: Byte, seqNum: nat, bytes: seq<Option<Byte>>) {
    predicate Fits() { seqNum < 0x1_0000 && |bytes| < 0x100_0000 }

    predicate Complete() {
      forall i | 0 <= i < |bytes| :: bytes[i].Some?
    }

    /** The message as received, with `body` written at `off`. */
    function Put(off: nat, body: Bytes): Frag
      requires off + |body| <= |bytes|
    {
      this.(bytes := seq(|bytes|, i requires 0 <= i < |bytes| =>
        if off <= i < off + |body| then Some(body[i - off]) else bytes[i]))
    }

    function Contents(): Bytes
      requires Complete()
    {
      seq(|bytes|, i requires 0 <= i < |bytes| => bytes[i].value)
    }

    function AsMessage(): Message
      requires Complete()
    {
      Message(typ, seqNum, Contents())
    }
  }

  /** A message of which nothing has arrived. An empty one is complete from the start. */
  function NewFrag(h: HmHeader): Frag {
    Frag(h.typ, h.seqNum, seq(h.msgLen, _ => None))
  }

  lemma AllMeansCovered(before: seq<bv8>, marked: seq<bv8>, n: nat, start: nat, end: nat)
    requires n <= 8 * |before| && n <= 8 * |marked|
    requires forall i: nat | i < n :: BitAt(marked, i) == (BitAt(before, i) || start <= i < end)
    requires forall i: nat | i < n :: BitAt(marked, i)
    ensures forall i: nat | i < n :: BitAt(before, i) || start <= i < end
  {
    forall i: nat | i < n
      ensures BitAt(before, i) || start <= i < end
    {
      assert BitAt(marked, i);
    }
  }

  class HmFragment {
    const typ: Byte
    const seqNum: nat
    const msgLen: nat
    /** The message with its header. */
    const data: array<Byte>
    /** One bit per byte of the body, or null once the message is complete. */
    var reassembly: array?<bv8>

    ghost predicate Valid()
      reads this, reassembly, data
    {
      && seqNum < 0x1_0000 && msgLen < 0x100_0000
      && data.Length == HM_HEADER_LENGTH + msgLen
      && data[..HM_HEADER_LENGTH] == HeaderBytes(HmHeader(typ, msgLen, seqNum, 0, msgLen))
      && (reassembly != null ==>
        && reassembly.Length == (msgLen + 7) / 8
        && (forall i: nat | msgLen <= i < 8 * reassembly.Length :: !BitAt(reassembly[..], i))
        && (exists i: nat :: i < msgLen && !BitAt(reassembly[..], i)))
    }

    ghost function Footprint(): set<object>
      reads this
    {
      {this, data} + (if reassembly == null then {} else {reassembly})
    }

    ghost predicate Marked(i: nat)
      requires Valid() && i < msgLen
      reads this, reassembly, data
    {
      reassembly == null || BitAt(reassembly[..], i)
    }

    ghost function Value(): (f: Frag)
      requires Valid()
      reads this, reassembly, data
      ensures f.Fits() && f.typ == typ && f.seqNum == seqNum && |f.bytes| == msgLen
    {
      Frag(typ, seqNum, seq(msgLen, i requires 0 <= i < msgLen && Valid() reads this, reassembly, data =>
        if Marked(i) then Some(data[HM_HEADER_LENGTH + i]) else None))
    }

    constructor (h: HmHeader)
      requires h.Fits()
      ensures Valid() && Value() == NewFrag(h)
      ensures fresh(data) && (reassembly != null ==> fresh(reassembly))
    {
      typ, seqNum, msgLen := h.typ, h.seqNum, h.msgLen;
      var header := HeaderBytes(HmHeader(h.typ, h.msgLen, h.seqNum, 0, h.msgLen));
      var d := new Byte[HM_HEADER_LENGTH + h.msgLen](_ => 0);
      for i := 0 to HM_HEADER_LENGTH
        invariant d[..i] == header[..i]
      {
        d[i] := header[i];
      }
      data := d;
      if h.msgLen > 0 {
        var mask := new bv8[(h.msgLen + 7) / 8](_ => 0);
        forall i: nat | i < 8 * mask.Length
          ensures !BitAt(mask[..], i)
        {
          FullByte(i % 8);
        }
        assert !BitAt(mask[..], 0);
        reassembly := mask;
      } else {
        reassembly := null;
      }
      new;
      assert forall i: nat | i < msgLen :: !Marked(i);
      assert Value().bytes == NewFrag(h).bytes;
    }

    /**
     Marks the bytes from `start`, inclusive, to `end`, exclusive, as received; when nothing is missing
     any more, releases the bitmask.
     */
    method Mark(start: nat, end: nat)
      requires Valid()
      modifies this, reassembly
      ensures Valid() && data[..] == old(data[..])
      ensures reassembly == null || reassembly == old(reassembly)
      ensures old(reassembly) == null || start > end || end > msgLen ==>
        reassembly == old(reassembly) && Value() == old(Value())
      ensures old(reassembly) != null && start <= end <= msgLen ==>
        forall i: nat | i < msgLen :: Marked(i) == (old(Marked(i)) || start <= i < end)
    {
      if reassembly == null || start > end || end > msgLen {
        return;
      }
      if start == end {
        return;
      }
      var mask := reassembly;
      ghost var before := mask[..];
      assert forall i: nat | i < msgLen :: Marked(i) == BitAt(before, i);
      MarkBits(mask, start, end);
      ghost var marked := mask[..];
      assert forall i: nat | i < msgLen :: BitAt(marked, i) == (BitAt(before, i) || start <= i < end);
      var all := AllMarked(mask, msgLen);
      assert mask[..] == marked;
      if all {
        AllMeansCovered(before, marked, msgLen, start, end);
        reassembly := null;
      }
      assert forall i: nat | i < msgLen :: Marked(i) == (BitAt(before, i) || start <= i < end);
    }

    /** Copies `body` to offset `off` of the message and marks it. */
    method Receive(off: nat, body: Bytes)
      requires Valid() && reassembly != null && off + |body| <= msgLen
      modifies this, data, reassembly
      ensures Valid() && Value() == old(Value()).Put(off, body)
      ensures reassembly == null || reassembly == old(reassembly)
    {
      var at := HM_HEADER_LENGTH + off;
      for i := 0 to |body|
        invariant Valid() && reassembly == old(reassembly)
        invariant reassembly[..] == old(reassembly[..])
        invariant forall k | 0 <= k < data.Length ::
          data[k] == (if at <= k < at + i then body[k - at] else old(data[k]))
      {
        data[at + i] := body[i];
      }
      Mark(off, off + |body|);
    }

    /** The bitmask is gone exactly when every byte of the body has arrived. */
    lemma CompleteIffReleased()
      requires Valid()
      ensures reassembly == null <==> Value().Complete()
    {
      if reassembly != null {
        var i: nat :| i < msgLen && !BitAt(reassembly[..], i);
        assert Value().bytes[i].None?;
      }
    }

    /** A complete message is stored as the sender serialized it. */
    lemma RawIfComplete()
      requires Valid() && reassembly == null
      ensures Value().Complete() && Value().AsMessage().Fits() && data[..] == Value().AsMessage().Raw()
    {
      assert data[..] == data[..HM_HEADER_LENGTH] + data[HM_HEADER_LENGTH..];
      assert data[HM_HEADER_LENGTH..] == Value().Contents();
    }
  }

  // ----- Any sequence of fragments -----

  /** A fragment applied to a message: where it goes and what it carries. */
  datatype Piece = Piece(off: nat, body: Bytes)

  predicate AllFit(pieces: seq<Piece>, len: nat) {
    forall k | 0 <= k < |pieces| :: pieces[k].off + |pieces[k].body| <= len
  }

  predicate Covers(p: Piece, i: nat) {
    p.off <= i < p.off + |p.body|
  }

  predicate CoveredBy(pieces: seq<Piece>, i: nat) {
    exists p | p in pieces :: Covers(p, i)
  }

  /** The message after all the pieces, in order; as in the receiver, a complete message takes no more. */
  function Assemble(f: Frag, pieces: seq<Piece>): (r: Frag)
    requires AllFit(pieces, |f.bytes|)
    ensures |r.bytes| == |f.bytes| && r.typ == f.typ && r.seqNum == f.seqNum
    decreases |pieces|
  {
    if pieces == [] then f
    else
      var p := pieces[0];
      Assemble(if f.Complete() then f else f.Put(p.off, p.body), pieces[1..])
  }

  lemma CoveredByCons(pieces: seq<Piece>, i: nat)
    requires pieces != []
    ensures CoveredBy(pieces, i) <==> Covers(pieces[0], i) || CoveredBy(pieces[1..], i)
  {
    if q :| q in pieces && Covers(q, i) {
      assert q == pieces[0] || q in pieces[1..];
    }
  }

  /**
   The bitmask refines a set of byte indices: after any sequence of fragments a byte is present exactly
   when it was before or some fragment covered it, and the message is complete exactly when the
   fragments leave no gap.
   */
  lemma {:induction false} AssembledIsCovered(f: Frag, pieces: seq<Piece>)
    requires AllFit(pieces, |f.bytes|)
    ensures var r := Assemble(f, pieces);
      && (forall i | 0 <= i < |f.bytes| :: r.bytes[i].Some? <==> f.bytes[i].Some? || CoveredBy(pieces, i))
      && (r.Complete() <==> forall i | 0 <= i < |f.bytes| :: f.bytes[i].Some? || CoveredBy(pieces, i))
    decreases |pieces|
  {
    if pieces != [] {
      var p, rest := pieces[0], pieces[1..];
      var g := if f.Complete() then f else f.Put(p.off, p.body);
      AssembledIsCovered(g, rest);
      forall i | 0 <= i < |f.bytes|
        ensures Assemble(f, pieces).bytes[i].Some? <==> f.bytes[i].Some? || CoveredBy(pieces, i)
      {
        CoveredByCons(pieces, i);
        assert g.bytes[i].Some? <==> f.bytes[i].Some? || Covers(p, i) || f.Complete();
      }
    }
  }

  /** Every byte that has arrived is the byte of `body`. */
  predicate Agrees(f: Frag, body: Bytes)
    requires |f.bytes| == |body|
  {
    forall i | 0 <= i < |body| :: f.bytes[i].Some? ==> f.bytes[i].value == body[i]
  }

  /** The pieces are fragments of a message with the given body. */
  predicate PiecesOf(pieces: seq<Piece>, body: Bytes) {
    && AllFit(pieces, |body|)
    && forall k | 0 <= k < |pieces| :: pieces[k].body == body[pieces[k].off..pieces[k].off + |pieces[k].body|]
  }

  /**
   Fragments of one message, however cut, repeated, overlapping or reordered, rebuild that message as
   soon as they cover it.
   */
  lemma {:induction false} HonestPiecesRebuild(f: Frag, pieces: seq<Piece>, body: Bytes)
    requires |f.bytes| == |body| && Agrees(f, body)
    requires PiecesOf(pieces, body)
    ensures Agrees(Assemble(f, pieces), body)
    ensures (forall i | 0 <= i < |body| :: CoveredBy(pieces, i)) ==>
      Assemble(f, pieces).Complete() && Assemble(f, pieces).Contents() == body
    decreases |pieces|
  {
    if pieces != [] {
      var p := pieces[0];
      var g := if f.Complete() then f else f.Put(p.off, p.body);
      HonestPiecesRebuild(g, pieces[1..], body);
    }
    AssembledIsCovered(f, pieces);
  }
}
