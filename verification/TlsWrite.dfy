/**
 Writing application data on a TLS connection whose transport may take it in pieces or not at all: the caller
 retries with the same data until all of it is out.
 */
module TlsWrite {
  import opened Wrappers
  import opened TlsBuffer

  const MAX_PLAIN_LENGTH := 16384
  const RT_APPLICATION_DATA := 23

  /** The caller's data: its bytes and where they lie in memory. */
  datatype Input = Input(address: nat, bytes: Bytes)

  function Min(a: nat, b: nat): nat { if a <= b then a else b }

  // ----- What the transport is to get -----

  /** How a record with this number, type and text looks on the wire, if it can be sealed. */
  type Sealer = (nat, nat, Bytes) -> Option<Bytes>

  /** What is queued for the transport at a time: what the handshake left over, or a record. */
  datatype Chunk = Leftover(bytes: Bytes) | Sealed(n: nat, typ: nat, text: Bytes)

  function WireOf(seal: Sealer, c: Chunk): Bytes {
    match c
    case Leftover(bytes) => bytes
    case Sealed(n, typ, text) => if seal(n, typ, text).Some? then seal(n, typ, text).value else []
  }

  /** The bytes of the chunks, one behind the other. */
  function Wire(seal: Sealer, h: seq<Chunk>): Bytes {
    if h == [] then [] else Wire(seal, h[..|h| - 1]) + WireOf(seal, h[|h| - 1])
  }

  /** The texts of the records, one behind the other. */
  function Texts(h: seq<Chunk>): Bytes {
    if h == [] then [] else Texts(h[..|h| - 1]) + if h[|h| - 1].Sealed? then h[|h| - 1].text else []
  }

  function Count(h: seq<Chunk>): nat {
    if h == [] then 0 else Count(h[..|h| - 1]) + if h[|h| - 1].Sealed? then 1 else 0
  }

  /** Every record could be sealed, under the number of records before it. */
  predicate Numbered(seal: Sealer, h: seq<Chunk>) {
    h == [] || (Numbered(seal, h[..|h| - 1])
      && (h[|h| - 1].Sealed? ==>
        && h[|h| - 1].n == Count(h[..|h| - 1])
        && seal(h[|h| - 1].n, h[|h| - 1].typ, h[|h| - 1].text).Some?))
  }

  /** The chunks are what has been queued and sealed, byte for byte, and what the record counter says. */
  predicate Explains(seal: Sealer, h: seq<Chunk>, queued: Bytes, sealed: Bytes, records: nat) {
    queued == Wire(seal, h) && sealed == Texts(h) && records == Count(h) && Numbered(seal, h)
  }

  lemma ExplainsWire(seal: Sealer, h: seq<Chunk>, queued: Bytes, sealed: Bytes, records: nat)
    requires Explains(seal, h, queued, sealed, records)
    ensures queued == Wire(seal, h) && sealed == Texts(h)
  {
  }

  lemma ExplainsMore(seal: Sealer, h: seq<Chunk>, queued: Bytes, sealed: Bytes, records: nat, c: Chunk)
    requires Explains(seal, h, queued, sealed, records)
    requires c.Sealed? ==> c.n == records && seal(c.n, c.typ, c.text).Some?
    ensures Explains(seal, h + [c], queued + WireOf(seal, c), if c.Sealed? then sealed + c.text else sealed,
      if c.Sealed? then records + 1 else records)
  {
    assert (h + [c])[..|h|] == h;
  }

  /**
   From one history to a later one: if the handshake had left something over, it was queued first and once, or nothing
   was; then come records of the given type, and nothing else.
   */
  predicate Grew(h: seq<Chunk>, leftover: Bytes, later: seq<Chunk>, leftoverLater: Bytes, typ: nat) {
    h <= later && var more := later[|h|..];
    if leftover == [] then leftoverLater == [] && AllRecords(more, typ)
    else if leftoverLater == leftover then more == []
    else leftoverLater == [] && more != [] && more[0] == Leftover(leftover) && AllRecords(more[1..], typ)
  }

  predicate AllRecords(more: seq<Chunk>, typ: nat) {
    forall i | 0 <= i < |more| :: more[i].Sealed? && more[i].typ == typ
  }

  lemma SealedSince(before: Bytes, after: Bytes, finished: nat, part: Bytes)
    requires before <= after && finished <= |before| && after[finished..] == part
    ensures after == before[..finished] + part
  {
    assert after == after[..finished] + after[finished..];
  }

  lemma GrewNothing(h: seq<Chunk>, leftover: Bytes, typ: nat)
    ensures Grew(h, leftover, h, leftover, typ)
  {
  }

  lemma GrewByRecord(h: seq<Chunk>, c: Chunk, typ: nat)
    requires c.Sealed? && c.typ == typ
    ensures Grew(h, [], h + [c], [], typ)
  {
  }

  lemma GrewOn(a: seq<Chunk>, fa: Bytes, b: seq<Chunk>, fb: Bytes, c: seq<Chunk>, fc: Bytes, typ: nat)
    requires Grew(a, fa, b, fb, typ) && Grew(b, fb, c, fc, typ)
    ensures Grew(a, fa, c, fc, typ)
  {
    assert c[|a|..] == b[|a|..] + c[|b|..];
    if fa != [] && fb != fa {
      assert c[|a|..][1..] == b[|a|..][1..] + c[|b|..];
    }
  }

  class Writer {
    const buffer: SslBuffer
    /** The largest plaintext of one record. */
    const maxFragment: nat
    const overhead: nat
    /** `SSL_MODE_ENABLE_PARTIAL_WRITE` and `SSL_MODE_ACCEPT_MOVING_WRITE_BUFFER`. */
    const partialWrite: bool
    const movingBuffer: bool
    /** What record number `n` with this type and text looks like on the wire, if it can be sealed. */
    const seal: Sealer

    var shutdown: bool
    /** How much of the current write has been sent when it was interrupted. */
    var wnum: nat
    var pending: bool
    var pendingLen: nat
    var pendingAddress: nat
    var pendingType: nat
    /** Handshake bytes that go out before the next record. */
    var flight: Bytes
    var records: nat
    /** All the transport has taken, and how often it was asked. */
    var sent: Bytes
    var calls: nat

    /** All chunks and all bytes ever queued for the transport, in order. */
    ghost var history: seq<Chunk>
    ghost var queued: Bytes
    /** All application data ever sealed, in order, and how much of it belongs to finished writes. */
    ghost var sealed: Bytes
    ghost var finished: nat

    ghost predicate Valid()
      reads this, buffer, buffer.buf
    {
      && buffer.Valid() && queued == sent + buffer.Contents()
      && Explains(seal, history, queued, sealed, records)
      && finished <= |sealed| && 0 < maxFragment <= MAX_PLAIN_LENGTH
      && (pending ==> 0 < pendingLen)
    }

    constructor (buffer: SslBuffer, maxFragment: nat, overhead: nat, partialWrite: bool, movingBuffer: bool,
        seal: Sealer, flight: Bytes)
      requires buffer.Valid() && buffer.Contents() == [] && 0 < maxFragment <= MAX_PLAIN_LENGTH
      ensures Valid() && this.buffer == buffer && this.flight == flight && sent == [] && history == [] && sealed == []
      ensures !pending && wnum == 0 && finished == 0 && !shutdown
    {
      this.buffer, this.maxFragment, this.overhead := buffer, maxFragment, overhead;
      this.partialWrite, this.movingBuffer, this.seal := partialWrite, movingBuffer, seal;
      shutdown, wnum, pending, pendingLen, pendingAddress, pendingType := false, 0, false, 0, 0, 0;
      this.flight, records, sent, calls := flight, 0, [], 0;
      history, queued, sealed, finished := [], [], [], 0;
    }

    /** The transport takes at most what it is offered. */
    static ghost predicate Transport(bio: (nat, nat) -> int) {
      forall k, n :: bio(k, n) <= n
    }

    /** It takes at least something, whenever it is offered something. */
    static ghost predicate Eager(bio: (nat, nat) -> int) {
      forall k: nat, n: nat :: n > 0 ==> bio(k, n) > 0
    }

    /** The record fits the buffer, behind what the handshake left over, and can be sealed. */
    ghost predicate Sealable(typ: nat, text: Bytes)
      reads this
    {
      && |text| + overhead + |flight| <= 0xffff
      && seal(records, typ, text).Some? && |seal(records, typ, text).value| <= |text| + overhead
    }

    static lemma HandedOver(sent: Bytes, contents: Bytes, taken: nat)
      requires taken <= |contents|
      ensures sent + contents == (sent + contents[..taken]) + contents[taken..]
    {
    }

    /** Offers the buffer to the transport until it is empty or refused. */
    method Flush(bio: (nat, nat) -> int) returns (ret: int)
      requires Valid() && Transport(bio)
      modifies this`sent, this`calls, buffer
      ensures Valid() && old(sent) <= sent && queued == old(queued)
      ensures ret > 0 ==> buffer.size == 0 && buffer.buf == null && sent == queued
      ensures ret <= 0 ==> buffer.size > 0 && buffer.buf == old(buffer.buf)
      ensures Eager(bio) ==> ret > 0
    {
      hide SslBuffer.Contents, SslBuffer.Valid, Explains;
      while buffer.size > 0
        invariant Valid() && old(sent) <= sent && queued == old(queued)
        invariant buffer.buf == old(buffer.buf)
        decreases buffer.size
      {
        var taken := bio(calls, buffer.size);
        calls := calls + 1;
        if taken <= 0 {
          return taken;
        }
        HandedOver(sent, buffer.Contents(), taken);
        sent := sent + buffer.Contents()[..taken];
        buffer.Consume(taken);
      }
      buffer.Clear();
      return 1;
    }

    /** Goes on with a record that is already sealed; the caller must come back with the same data. */
    method WritePending(bio: (nat, nat) -> int, typ: nat, address: nat, len: nat) returns (ret: int)
      requires Valid() && Transport(bio) && pending
      modifies this`sent, this`calls, this`pending, buffer
      ensures Valid() && old(sent) <= sent
      ensures ret > 0 ==> !pending && ret == pendingLen && sent == queued && buffer.size == 0
      ensures ret <= 0 ==> pending
      ensures Accepted(typ, address, len) || (ret == -1 && sent == old(sent))
      ensures Accepted(typ, address, len) && Eager(bio) ==> ret > 0
      ensures buffer.buf == old(buffer.buf) || buffer.buf == null
    {
      hide SslBuffer.Contents, SslBuffer.Valid;
      if pendingLen > len || (!movingBuffer && pendingAddress != address) || pendingType != typ {
        return -1;
      }
      ret := Flush(bio);
      if ret <= 0 {
        return;
      }
      pending := false;
      return pendingLen;
    }

    /** Whether a retry is recognised as one. */
    ghost predicate Accepted(typ: nat, address: nat, len: nat)
      reads this
    {
      pendingLen <= len && (movingBuffer || pendingAddress == address) && pendingType == typ
    }

    /** Queues bytes for the transport. */
    method Queue(data: Bytes, c: Chunk)
      requires Valid() && |data| <= buffer.cap - buffer.size && data == WireOf(seal, c)
      requires c.Sealed? ==> c.n == records && seal(c.n, c.typ, c.text).Some?
      modifies this`history, this`queued, this`sealed, this`records, buffer`size, buffer.buf
      ensures Valid() && history == old(history) + [c] && buffer.size == old(buffer.size) + |data|
      ensures queued == old(queued) + data && sealed == if c.Sealed? then old(sealed) + c.text else old(sealed)
      ensures records == if c.Sealed? then old(records) + 1 else old(records)
    {
      hide SslBuffer.Contents, SslBuffer.Valid, Explains;
      ghost var before := buffer.Contents();
      buffer.Append(data);
      ExplainsMore(seal, history, queued, sealed, records, c);
      history, queued := history + [c], queued + data;
      if c.Sealed? {
        sealed := sealed + c.text;
        records := records + 1;
      }
      assert queued == sent + (before + data);
    }

    /** Makes room for a record and queues what the handshake left over. */
    method QueueFlight(room: nat, slack: nat, ghost typ: nat) returns (ok: bool)
      requires Valid() && buffer.size == 0 && slack < ALIGN_PAYLOAD
      modifies this`history, this`queued, this`sealed, this`records, this`flight, buffer, buffer.buf
      ensures Valid() && sealed == old(sealed) && records == old(records) && old(queued) <= queued
      ensures Grew(old(history), old(flight), history, flight, typ) && flight == if ok then [] else old(flight)
      ensures ok ==> room <= buffer.cap - buffer.size
      ensures ok <==> room + |old(flight)| <= 0xffff
      ensures buffer.buf == old(buffer.buf) || buffer.buf == null || fresh(buffer.buf)
    {
      hide SslBuffer.Contents, SslBuffer.Valid, Explains;
      ok := buffer.EnsureCap(room + |flight|, slack);
      if ok {
        assert buffer.size == |buffer.Contents()| == 0;
        if flight != [] {
          Queue(flight, Leftover(flight));
          flight := [];
        }
      }
    }

    /** Seals one record behind what the handshake left over. */
    method SealRecord(typ: nat, address: nat, text: Bytes, slack: nat) returns (ok: bool)
      requires Valid() && !pending && slack < ALIGN_PAYLOAD && buffer.size == 0 && text != []
      modifies this`history, this`queued, this`flight, this`sealed, this`records, this`pending, this`pendingLen,
        this`pendingAddress, this`pendingType, buffer, buffer.buf
      ensures Valid() && old(queued) <= queued && pending == ok
      ensures Grew(old(history), old(flight), history, flight, typ)
      ensures sealed == if ok then old(sealed) + text else old(sealed)
      ensures ok <==> old(Sealable(typ, text))
      ensures flight == old(flight) || flight == []
      ensures ok ==> pendingLen == |text| && pendingAddress == address && pendingType == typ
      ensures buffer.buf == old(buffer.buf) || buffer.buf == null || fresh(buffer.buf)
    {
      hide SslBuffer.Contents, SslBuffer.Valid, Explains, Grew;
      ok := QueueFlight(|text| + overhead, slack, typ);
      if ok {
        var record := seal(records, typ, text);
        ok := record.Some? && |record.value| <= |text| + overhead;
        if ok {
          GrewByRecord(history, Sealed(records, typ, text), typ);
          GrewOn(old(history), old(flight), history, flight, history + [Sealed(records, typ, text)], flight, typ);
          Queue(record.value, Sealed(records, typ, text));
          pendingLen, pendingAddress, pendingType, pending := |text|, address, typ, true;
        }
      }
    }

    /**
     Goes on with the record that is pending, or seals one and offers it to the transport. A retry seals nothing;
     a new record seals its text, and its text only, behind what the handshake left over. On a transport that takes
     something each time, a call succeeds exactly if it is a proper retry, or its record is not empty, not too long,
     and can be sealed.
     */
    method DoWrite(bio: (nat, nat) -> int, typ: nat, address: nat, text: Bytes, slack: nat) returns (ret: int)
      requires Valid() && Transport(bio) && slack < ALIGN_PAYLOAD
      modifies this`history, this`queued, this`flight, this`sealed, this`records, this`pending, this`pendingLen,
        this`pendingAddress, this`pendingType, this`sent, this`calls, buffer, buffer.buf
      ensures Valid() && old(sent) <= sent && Grew(old(history), old(flight), history, flight, typ)
      ensures old(pending) ==>
        && sealed == old(sealed) && history == old(history) && pendingLen == old(pendingLen)
        && pendingAddress == old(pendingAddress) && pendingType == old(pendingType)
      ensures !old(pending) ==>
        if pending || ret > 0 then
          sealed == old(sealed) + text && pendingLen == |text| && pendingAddress == address && pendingType == typ
        else sealed == old(sealed)
      ensures ret > 0 ==> !pending && ret == pendingLen <= |text| && sent == queued && buffer.size == 0
      ensures Eager(bio) ==>
        (ret > 0 <==> if old(pending) then old(Accepted(typ, address, |text|))
                      else 0 < |text| <= MAX_PLAIN_LENGTH && old(buffer.size) == 0 && old(Sealable(typ, text)))
      ensures flight == old(flight) || flight == []
      ensures ret <= 0 && old(pending) ==> pending
      ensures buffer.buf == old(buffer.buf) || buffer.buf == null || fresh(buffer.buf)
    {
      hide SslBuffer.Contents, SslBuffer.Valid, Explains, Grew;
      GrewNothing(history, flight, typ);
      if !pending {
        if |text| > MAX_PLAIN_LENGTH || buffer.size > 0 {
          return -1;
        }
        if |text| == 0 {
          return 0;
        }
        var ok := SealRecord(typ, address, text, slack);
        if !ok {
          return -1;
        }
      }
      ret := WritePending(bio, typ, address, |text|);
    }

    // ----- Whole writes -----

    /** What is left of a record that is sealed but not yet out. */
    ghost function Ahead(): nat
      reads this
    {
      if pending then pendingLen else 0
    }

    /** The write that was interrupted was of this very input: what is sealed of it is a prefix of its bytes. */
    ghost predicate Resumes(input: Input)
      reads this
    {
      && finished <= |sealed| && wnum + Ahead() <= |input.bytes|
      && sealed[finished..] == input.bytes[..wnum + Ahead()]
      && (pending ==>
        && pendingLen == Min(maxFragment, |input.bytes| - wnum)
        && pendingAddress == input.address + wnum && pendingType == RT_APPLICATION_DATA)
    }

    /**
     Writes application data, or goes on writing it. A positive result is the number of bytes of the input that are
     sealed and out; otherwise the same input can be offered again. If records can be sealed and the transport takes
     something each time, the call succeeds.
     */
    method WriteAppData(bio: (nat, nat) -> int, input: Input, len: int, slack: nat) returns (ret: int)
      requires Valid() && Transport(bio) && slack < ALIGN_PAYLOAD
      requires len < 0 || len == |input.bytes|
      modifies this, buffer, buffer.buf
      ensures Valid() && old(sent) <= sent
      ensures Grew(old(history), old(flight), history, flight, RT_APPLICATION_DATA)
      ensures old(shutdown) || len < old(wnum) ==> ret == -1 && sealed == old(sealed) && sent == old(sent)
      ensures old(Resumes(input)) && len >= 0 ==> Progress(input, ret, old(sealed), old(finished))
      ensures Eager(bio) && old(Resumes(input) && CanSeal() && !shutdown && wnum < |input.bytes|) && len >= 0 ==>
        ret > old(wnum)
      ensures buffer.buf == null || buffer.buf == old(buffer.buf) || fresh(buffer.buf)
    {
      hide SslBuffer.Contents, SslBuffer.Valid, Explains, Grew, Writer.SealsAll;
      GrewNothing(history, flight, RT_APPLICATION_DATA);
      if shutdown {
        return -1;
      }
      var tot := wnum;
      wnum := 0;
      if len < tot {
        return -1;
      }
      ghost var resumes := old(Resumes(input));
      ret, tot := WriteRest(bio, input, tot, slack, resumes);
      if ret <= 0 {
        wnum := tot;
      } else {
        if resumes {
          SealedSince(old(sealed), sealed, finished, input.bytes[..ret]);
        }
        ExplainsWire(seal, history, queued, sealed, records);
        finished := |sealed|;
      }
    }

    /** The cipher seals every record of application data. */
    ghost predicate SealsAll() {
      forall n: nat, text: Bytes {:trigger seal(n, RT_APPLICATION_DATA, text)} | 0 < |text| <= maxFragment ::
        var record := seal(n, RT_APPLICATION_DATA, text);
        record.Some? && |record.value| <= |text| + overhead
    }

    /** Records can be sealed and fit the buffer, and nothing is in it but the record that is pending. */
    ghost predicate CanSeal()
      reads this, buffer
    {
      SealsAll() && maxFragment + overhead + |flight| <= 0xffff && (!pending ==> buffer.size == 0)
    }

    lemma SealsThis(text: Bytes)
      requires CanSeal() && 0 < |text| <= maxFragment
      ensures Sealable(RT_APPLICATION_DATA, text)
    {
    }

    /** `Resumes`, with the progress of the running write. */
    ghost predicate ResumesAt(input: Input, tot: nat)
      reads this
    {
      && finished <= |sealed| && tot + Ahead() <= |input.bytes|
      && sealed[finished..] == input.bytes[..tot + Ahead()]
      && (pending ==>
        && pendingLen == Min(maxFragment, |input.bytes| - tot)
        && pendingAddress == input.address + tot && pendingType == RT_APPLICATION_DATA)
    }

    /** Record after record, until all is out, or one is if partial writes are allowed, or the transport refuses. */
    method WriteRest(bio: (nat, nat) -> int, input: Input, start: nat, slack: nat, ghost resumes: bool)
      returns (ret: int, tot: nat)
      requires Valid() && Transport(bio) && slack < ALIGN_PAYLOAD && start <= |input.bytes|
      requires resumes ==> ResumesAt(input, start)
      modifies this`history, this`queued, this`flight, this`sealed, this`records, this`pending, this`pendingLen,
        this`pendingAddress, this`pendingType, this`sent, this`calls, buffer, buffer.buf
      ensures Valid() && old(sent) <= sent && tot <= |input.bytes|
      ensures Grew(old(history), old(flight), history, flight, RT_APPLICATION_DATA)
      ensures ret > 0 ==> ret == tot && !pending && sent == queued && (tot == |input.bytes| || partialWrite)
      ensures resumes ==> old(sealed) <= sealed && ResumesAt(input, tot)
      ensures Eager(bio) && resumes && old(CanSeal()) && start < |input.bytes| ==> ret > 0 && tot > start
      ensures buffer.buf == null || buffer.buf == old(buffer.buf) || fresh(buffer.buf)
    {
      hide SslBuffer.Contents, SslBuffer.Valid, Explains, Grew, Writer.ResumesAt, Writer.SealsAll;
      GrewNothing(history, flight, RT_APPLICATION_DATA);
      tot := start;
      while true
        invariant Valid() && old(sent) <= sent && tot <= |input.bytes|
        invariant Grew(old(history), old(flight), history, flight, RT_APPLICATION_DATA)
        invariant resumes ==> ResumesAt(input, tot) && old(sealed) <= sealed
        invariant Eager(bio) && resumes && old(CanSeal()) && start < |input.bytes| ==>
          CanSeal() && start <= tot < |input.bytes|
        invariant buffer.buf == null || buffer.buf == old(buffer.buf) || fresh(buffer.buf)
        decreases |input.bytes| - tot
      {
        var left := |input.bytes| - tot;
        var part := if left > maxFragment then maxFragment else left;
        ghost var h, f := history, flight;
        var ok, got := WritePart(bio, input, tot, part, slack, resumes);
        GrewOn(old(history), old(flight), h, f, history, flight, RT_APPLICATION_DATA);
        if !ok {
          return got, tot;
        }
        tot := tot + got;
        if got == left || partialWrite {
          return tot, tot;
        }
      }
    }

    /** One record of a write. */
    method WritePart(bio: (nat, nat) -> int, input: Input, tot: nat, part: nat, slack: nat, ghost resumes: bool)
      returns (ok: bool, ret: int)
      requires Valid() && Transport(bio) && slack < ALIGN_PAYLOAD && tot + part <= |input.bytes|
      requires part == Min(maxFragment, |input.bytes| - tot)
      requires resumes ==> ResumesAt(input, tot)
      modifies this`history, this`queued, this`flight, this`sealed, this`records, this`pending, this`pendingLen,
        this`pendingAddress, this`pendingType, this`sent, this`calls, buffer, buffer.buf
      ensures Valid() && old(sent) <= sent && ok == (ret > 0)
      ensures Grew(old(history), old(flight), history, flight, RT_APPLICATION_DATA)
      ensures ok ==> !pending && ret <= part && sent == queued
      ensures resumes ==> old(sealed) <= sealed && ResumesAt(input, if ok then tot + ret else tot)
      ensures Eager(bio) && resumes && old(CanSeal()) && part > 0 ==> ok && CanSeal()
      ensures buffer.buf == old(buffer.buf) || buffer.buf == null || fresh(buffer.buf)
    {
      hide SslBuffer.Contents, SslBuffer.Valid, Explains, Grew, Writer.SealsAll, Writer.Sealable;
      var text := input.bytes[tot..tot + part];
      if CanSeal() && part > 0 {
        SealsThis(text);
      }
      ret := DoWrite(bio, RT_APPLICATION_DATA, input.address + tot, text, slack);
      ok := ret > 0;
      assert input.bytes[..tot] + text == input.bytes[..tot + part];
    }

    /**
     What a call reports of a write: a positive result is the number of bytes sealed and out since the write began;
     otherwise the write is where it can be resumed.
     */
    ghost predicate Progress(input: Input, ret: int, sealedBefore: Bytes, finishedBefore: nat)
      reads this
    {
      if ret > 0 then
        && ret <= |input.bytes| && finishedBefore <= |sealedBefore|
        && sealed == sealedBefore[..finishedBefore] + input.bytes[..ret] && finished == |sealed|
        && (ret == |input.bytes| || partialWrite) && sent == Wire(seal, history) && !pending && wnum == 0
      else finished == finishedBefore && sealedBefore <= sealed && Resumes(input)
    }
  }

  /**
   Offers the same input again and again, whatever the transport takes of it each time. When a call reports
   success, exactly the reported part of the input has been sealed since the write began, each byte once and in
   order, and all of it is out; until then what has been sealed is a prefix of the input.
   */
  method WriteUntilDone(w: Writer, bio: (nat, nat) -> int, input: Input, tries: nat, slack: nat) returns (ret: int)
    requires w.Valid() && Writer.Transport(bio) && slack < ALIGN_PAYLOAD && w.Resumes(input)
    modifies w, w.buffer, w.buffer.buf
    ensures w.Valid() && old(w.sent) <= w.sent
    ensures Grew(old(w.history), old(w.flight), w.history, w.flight, RT_APPLICATION_DATA)
    ensures w.Progress(input, ret, old(w.sealed), old(w.finished))
  {
    hide SslBuffer.Contents, SslBuffer.Valid, Explains, Grew;
    GrewNothing(w.history, w.flight, RT_APPLICATION_DATA);
    ret := 0;
    for k := 0 to tries
      invariant w.Valid() && old(w.sent) <= w.sent && ret <= 0
      invariant Grew(old(w.history), old(w.flight), w.history, w.flight, RT_APPLICATION_DATA)
      invariant w.finished == old(w.finished) && old(w.sealed) <= w.sealed && w.Resumes(input)
      invariant w.buffer.buf == null || w.buffer.buf == old(w.buffer.buf) || fresh(w.buffer.buf)
    {
      ghost var before, h, f := w.sealed, w.history, w.flight;
      ret := w.WriteAppData(bio, input, |input.bytes|, slack);
      GrewOn(old(w.history), old(w.flight), h, f, w.history, w.flight, RT_APPLICATION_DATA);
      if ret > 0 {
        assert before[..old(w.finished)] == old(w.sealed)[..old(w.finished)];
        return;
      }
    }
  }
}
