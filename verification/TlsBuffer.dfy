/**
 The record buffer of a TLS connection: a block of memory with a window that grows at its end and is consumed
 from its front.
 */
module TlsBuffer {
  import opened Wrappers

  const ALIGN_PAYLOAD := 8

  class SslBuffer {
    var buf: array?<Byte>
    var offset: nat
    var size: nat
    var cap: nat

    predicate Valid()
      reads this
    {
      if buf == null then offset == 0 && size == 0 && cap == 0
      else size <= cap <= 0xffff && offset + cap <= buf.Length
    }

    function Contents(): (s: Bytes)
      requires Valid()
      reads this, buf
      ensures |s| == size
    {
      if buf == null then [] else buf[offset..offset + size]
    }

    constructor ()
      ensures Valid() && buf == null
    {
      buf, offset, size, cap := null, 0, 0, 0;
    }

    /** Releases the memory. */
    method Clear()
      modifies this
      ensures Valid() && buf == null && Contents() == []
    {
      buf, offset, size, cap := null, 0, 0, 0;
    }

    /**
     Makes room for `newCap` bytes in all and keeps what the buffer holds. `slack` stands for the address of the
     new memory, which decides where the contents are aligned.
     */
    method EnsureCap(newCap: nat, slack: nat) returns (ok: bool)
      requires Valid() && slack < ALIGN_PAYLOAD
      modifies this
      ensures Valid() && Contents() == old(Contents())
      ensures ok == (newCap <= 0xffff)
      ensures ok ==> cap >= newCap && (buf == old(buf) || fresh(buf))
      ensures !ok ==> buf == old(buf) && cap == old(cap)
      ensures ok && newCap > 0 ==> buf != null
    {
      if newCap > 0xffff {
        return false;
      }
      if cap >= newCap {
        return true;
      }
      var newBuf := new Byte[newCap + ALIGN_PAYLOAD - 1](_ => 0);
      if buf != null {
        for i := 0 to size
          invariant buf == old(buf) && offset == old(offset) && size == old(size)
          invariant newBuf[slack..slack + i] == buf[offset..offset + i]
        {
          newBuf[slack + i] := buf[offset + i];
          assert newBuf[slack..slack + (i + 1)] == newBuf[slack..slack + i] + [newBuf[slack + i]];
          assert buf[offset..offset + (i + 1)] == buf[offset..offset + i] + [buf[offset + i]];
        }
      }
      buf, offset, cap := newBuf, slack, newCap;
      return true;
    }

    /** Appends `data` to the contents. */
    method Append(data: Bytes)
      requires Valid() && |data| <= cap - size
      modifies this`size, buf
      ensures Valid() && size == old(size) + |data| && Contents() == old(Contents()) + data
    {
      if buf != null {
        ghost var front := Contents();
        var at := offset + size;
        forall i | at <= i < at + |data| {
          buf[i] := data[i - at];
        }
        assert buf[offset..at] == front;
        assert buf[at..at + |data|] == data;
        DidWrite(|data|);
        assert buf[offset..offset + size] == buf[offset..at] + buf[at..at + |data|];
      }
    }

    /** Extends the contents over what has been written behind them. */
    method DidWrite(len: nat)
      requires Valid() && len <= cap - size
      modifies this`size
      ensures Valid() && size == old(size) + len
    {
      size := size + len;
    }

    /** Drops `len` bytes from the front. */
    method Consume(len: nat)
      requires Valid() && len <= size
      modifies this`offset, this`size, this`cap
      ensures Valid() && Contents() == old(Contents())[len..]
    {
      if buf != null {
        offset, size, cap := offset + len, size - len, cap - len;
        assert buf[offset..offset + size] == buf[old(offset)..old(offset) + old(size)][len..];
      }
    }

    method DiscardConsumed()
      requires Valid()
      modifies this
      ensures Valid() && Contents() == old(Contents())
      ensures if old(size) == 0 then buf == null && cap == 0 else unchanged(this)
    {
      if size == 0 {
        Clear();
      }
    }
  }
}
