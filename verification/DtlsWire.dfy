/**
 Wire format of DTLS handshake fragments (section 4.2.2 of RFC 6347): big-endian integers and the
 12-byte fragment header, with the parser and the serializer as mutual inverses.
 */
module DtlsWire {
  import opened Wrappers

  /** The size of a handshake fragment header. */
  const HM_HEADER_LENGTH := 12

  /** The number of messages a flight may hold, in the sender and in the receiver's ring buffer. */
  const MAX_HANDSHAKE_FLIGHT := 7

  // ----- Big-endian integers -----

  function PutU16(n: nat): (b: Bytes)
    requires n < 0x1_0000
    ensures |b| == 2
  {
    [n / 0x100, n % 0x100]
  }

  function PutU24(n: nat): (b: Bytes)
    requires n < 0x100_0000
    ensures |b| == 3
  {
    [n / 0x1_0000, n / 0x100 % 0x100, n % 0x100]
  }

  function GetU16(b: Bytes): (n: nat)
    requires |b| == 2
    ensures n < 0x1_0000
  {
    b[0] as int * 0x100 + b[1] as int
  }

  function GetU24(b: Bytes): (n: nat)
    requires |b| == 3
    ensures n < 0x100_0000
  {
    b[0] as int * 0x1_0000 + b[1] as int * 0x100 + b[2] as int
  }

  lemma U16RoundTrip(n: nat)
    requires n < 0x1_0000
    ensures GetU16(PutU16(n)) == n
  {
  }

  lemma U24RoundTrip(n: nat)
    requires n < 0x100_0000
    ensures GetU24(PutU24(n)) == n
  {
    var hi, mid, lo := n / 0x1_0000, n / 0x100 % 0x100, n % 0x100;
    assert n == hi * 0x1_0000 + mid * 0x100 + lo;
    assert PutU24(n) == [hi, mid, lo];
  }

  lemma U16Inverse(b: Bytes)
    requires |b| == 2
    ensures PutU16(GetU16(b)) == b
  {
    assert GetU16(b) / 0x100 == b[0] && GetU16(b) % 0x100 == b[1];
  }

  lemma U24Inverse(b: Bytes)
    requires |b| == 3
    ensures PutU24(GetU24(b)) == b
  {
    U24Digits(b[0], b[1], b[2]);
  }

  lemma U24Digits(hi: nat, mid: nat, lo: nat)
    requires hi < 0x100 && mid < 0x100 && lo < 0x100
    ensures var n := hi * 0x1_0000 + mid * 0x100 + lo;
      n / 0x1_0000 == hi && n / 0x100 % 0x100 == mid && n % 0x100 == lo
  {
    assert (hi * 0x1_0000 + mid * 0x100 + lo) / 0x100 == hi * 0x100 + mid;
  }

  // ----- Big-endian integers of any width -----

  function BigEndian(b: Bytes): nat {
    if |b| == 0 then 0 else BigEndian(b[..|b| - 1]) * 0x100 + b[|b| - 1]
  }

  /** Different byte strings of one length are different numbers. */
  lemma {:induction false} BigEndianInjective(a: Bytes, b: Bytes)
    requires |a| == |b| && BigEndian(a) == BigEndian(b)
    ensures a == b
  {
    if |a| > 0 {
      var n := |a| - 1;
      LastDigit(BigEndian(a[..n]), a[n], BigEndian(b[..n]), b[n]);
      BigEndianInjective(a[..n], b[..n]);
      assert a == a[..n] + [a[n]] && b == b[..n] + [b[n]];
    }
  }

  lemma LastDigit(x: nat, y: nat, u: nat, v: nat)
    requires y < 0x100 && v < 0x100 && x * 0x100 + y == u * 0x100 + v
    ensures x == u && y == v
  {
  }

  function Pow256(len: nat): (p: nat)
    ensures p > 0
  {
    if len == 0 then 1 else 0x100 * Pow256(len - 1)
  }

  function PutBigEndian(n: nat, len: nat): (b: Bytes)
    ensures |b| == len
  {
    if len == 0 then [] else PutBigEndian(n / 0x100, len - 1) + [n % 0x100]
  }

  lemma {:induction false} PutBigEndianRoundTrip(n: nat, len: nat)
    requires n < Pow256(len)
    ensures BigEndian(PutBigEndian(n, len)) == n
  {
    if len > 0 {
      PutBigEndianRoundTrip(n / 0x100, len - 1);
      var b := PutBigEndian(n, len);
      assert b[..len - 1] == PutBigEndian(n / 0x100, len - 1);
    }
  }

  // ----- Handshake fragments -----

  /** The header of one handshake fragment. */
  datatype HmHeader = HmHeader(typ: Byte, msgLen: nat, seqNum: nat, fragOff: nat, fragLen: nat) {
    /** Every field fits its width on the wire. */
    predicate Fits() {
      msgLen < 0x100_0000 && seqNum < 0x1_0000 && fragOff < 0x100_0000 && fragLen < 0x100_0000
    }
  }

  datatype Parsed = Parsed(hdr: HmHeader, body: Bytes, rest: Bytes)

  function HeaderBytes(h: HmHeader): (b: Bytes)
    requires h.Fits()
    ensures |b| == HM_HEADER_LENGTH
  {
    [h.typ] + PutU24(h.msgLen) + PutU16(h.seqNum) + PutU24(h.fragOff) + PutU24(h.fragLen)
  }

  function SerializeFragment(h: HmHeader, body: Bytes): (b: Bytes)
    requires h.Fits()
    ensures |b| == HM_HEADER_LENGTH + |body|
  {
    HeaderBytes(h) + body
  }

  /** Where the fields of a fragment lie, most significant byte first. */
  lemma FragmentLayout(h: HmHeader, body: Bytes)
    requires h.Fits()
    ensures var b := SerializeFragment(h, body);
      && b[0] == h.typ && BigEndian(b[1..4]) == h.msgLen && BigEndian(b[4..6]) == h.seqNum
      && BigEndian(b[6..9]) == h.fragOff && BigEndian(b[9..12]) == h.fragLen && b[12..] == body
  {
    hide BigEndian, PutU16, PutU24;
    var b := SerializeFragment(h, body);
    assert b[1..4] == PutU24(h.msgLen) && b[4..6] == PutU16(h.seqNum);
    assert b[6..9] == PutU24(h.fragOff) && b[9..12] == PutU24(h.fragLen);
    U24IsBigEndian(h.msgLen);
    U16IsBigEndian(h.seqNum);
    U24IsBigEndian(h.fragOff);
    U24IsBigEndian(h.fragLen);
  }

  lemma U16IsBigEndian(n: nat)
    requires n < 0x1_0000
    ensures BigEndian(PutU16(n)) == n
  {
    var b := PutU16(n);
    assert b[..1] == [b[0]] && BigEndian(b[..1][..0]) == 0;
    assert BigEndian(b[..1]) == b[0];
  }

  lemma U24IsBigEndian(n: nat)
    requires n < 0x100_0000
    ensures BigEndian(PutU24(n)) == n
  {
    var b := PutU24(n);
    U16IsBigEndian(n / 0x100);
    assert b[..2] == PutU16(n / 0x100);
  }

  /** Reads one fragment off the front of `b`; fails when the header or the body is cut short. */
  function ParseFragment(b: Bytes): (r: Option<Parsed>)
    ensures r.Some? ==> r.value.hdr.Fits() && |r.value.body| == r.value.hdr.fragLen
    ensures r.Some? ==> |b| == HM_HEADER_LENGTH + |r.value.body| + |r.value.rest|
  {
    if |b| < HM_HEADER_LENGTH then None
    else
      var h := HmHeader(b[0], GetU24(b[1..4]), GetU16(b[4..6]), GetU24(b[6..9]), GetU24(b[9..12]));
      if |b| - HM_HEADER_LENGTH < h.fragLen then None
      else Some(Parsed(h, b[HM_HEADER_LENGTH..HM_HEADER_LENGTH + h.fragLen], b[HM_HEADER_LENGTH + h.fragLen..]))
  }

  /** Parsing what was serialized returns it, and leaves what follows untouched. */
  lemma ParseSerialized(h: HmHeader, body: Bytes, rest: Bytes)
    requires h.Fits() && |body| == h.fragLen
    ensures ParseFragment(SerializeFragment(h, body) + rest) == Some(Parsed(h, body, rest))
  {
    var b := SerializeFragment(h, body) + rest;
    assert b[1..4] == PutU24(h.msgLen) && b[4..6] == PutU16(h.seqNum);
    assert b[6..9] == PutU24(h.fragOff) && b[9..12] == PutU24(h.fragLen);
    U24RoundTrip(h.msgLen);
    U16RoundTrip(h.seqNum);
    U24RoundTrip(h.fragOff);
    U24RoundTrip(h.fragLen);
    assert b[12..12 + h.fragLen] == body && b[12 + h.fragLen..] == rest;
  }

  /** Whatever parses is the serialization of what was parsed: the format is canonical. */
  lemma SerializeParsed(b: Bytes)
    requires ParseFragment(b).Some?
    ensures var p := ParseFragment(b).value; b == SerializeFragment(p.hdr, p.body) + p.rest
  {
    var p := ParseFragment(b).value;
    U24Inverse(b[1..4]);
    U16Inverse(b[4..6]);
    U24Inverse(b[6..9]);
    U24Inverse(b[9..12]);
    assert b[..12] == [b[0]] + b[1..4] + b[4..6] + b[6..9] + b[9..12] == HeaderBytes(p.hdr);
    assert b == b[..12] + b[12..12 + p.hdr.fragLen] + b[12 + p.hdr.fragLen..];
  }

  // ----- Whole messages -----

  /** A handshake message as the upper layer sees it. */
  datatype Message = Message(typ: Byte, seqNum: nat, body: Bytes) {
    predicate Fits() { seqNum < 0x1_0000 && |body| < 0x100_0000 }

    function Header(): (h: HmHeader)
      requires Fits()
      ensures h.Fits()
    {
      HmHeader(typ, |body|, seqNum, 0, |body|)
    }

    /** The serialization of the message as one unfragmented fragment. */
    function Raw(): Bytes
      requires Fits()
    {
      SerializeFragment(Header(), body)
    }
  }

  /** The message that `data` serializes as a single fragment, if it does. */
  function WholeMessage(data: Bytes): (m: Option<Message>)
    ensures m.Some? ==> m.value.Fits()
  {
    match ParseFragment(data)
    case None => None
    case Some(p) =>
      if p.hdr.fragOff != 0 || p.hdr.msgLen != |p.body| || p.rest != [] then None
      else Some(Message(p.hdr.typ, p.hdr.seqNum, p.body))
  }

  /** Exactly the serialization of a message reads back as that message. */
  lemma WholeMessageIsRaw(data: Bytes, m: Message)
    requires m.Fits()
    ensures WholeMessage(data) == Some(m) <==> data == m.Raw()
  {
    if data == m.Raw() {
      assert m.Raw() == SerializeFragment(m.Header(), m.body) + [];
      ParseSerialized(m.Header(), m.body, []);
    }
    if WholeMessage(data) == Some(m) {
      SerializeParsed(data);
      assert data == SerializeFragment(m.Header(), m.body) + [];
    }
  }

  /**
   The bytes `dtls1_init_message` lays down and the caller completes: a message length that is still
   zero, and a fragment length fixed up by the length prefix.
   */
  function Unfinished(m: Message): Bytes
    requires m.Fits()
  {
    SerializeFragment(HmHeader(m.typ, 0, m.seqNum, 0, |m.body|), m.body)
  }

  /** Copies the fragment length over the message length, in place; fails on a short buffer. */
  method FinishMessage(msg: array<Byte>) returns (ok: bool)
    modifies msg
    ensures ok == (msg.Length >= HM_HEADER_LENGTH)
    ensures ok ==> msg[..] == old(msg[..1] + msg[9..12] + msg[4..])
    ensures !ok ==> msg[..] == old(msg[..])
  {
    if msg.Length < HM_HEADER_LENGTH {
      return false;
    }
    for i := 0 to 3
      invariant forall k :: 0 <= k < msg.Length ==>
        msg[k] == if 1 <= k < 1 + i then old(msg[k + 8]) else old(msg[k])
    {
      msg[1 + i] := msg[9 + i];
    }
    return true;
  }

  /** Finishing a message yields its unfragmented serialization. */
  lemma FinishedIsRaw(m: Message)
    requires m.Fits()
    ensures var u := Unfinished(m); u[..1] + u[9..12] + u[4..] == m.Raw()
  {
    var u := Unfinished(m);
    assert u[9..12] == PutU24(|m.body|);
    assert u[4..] == PutU16(m.seqNum) + PutU24(0) + PutU24(|m.body|) + m.body;
    assert m.Raw() == [m.typ] + PutU24(|m.body|) + PutU16(m.seqNum) + PutU24(0) + PutU24(|m.body|) + m.body;
  }
}
