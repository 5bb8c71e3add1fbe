/**
 shared_queue.h and shared_queue.cpp, called from one thread at a time: the ring with an
 all-or-nothing check in front of it and a notification pipe beside it. The pipe is the
 number of bytes waiting in it; the kernel refuses more than its capacity.
 */
module SharedQueues {
  import opened Bits
  import opened RingBuffers

  datatype Fds = Opened(readEnd: int, writeEnd: int) | Refused

  class SharedQueue {
    var m_readFd: int
    var m_writeFd: int
    var pipe: nat
    const pipeCap: nat
    const m_ring_buffer: RingBuffer

    ghost predicate Valid()
      reads this, m_ring_buffer, m_ring_buffer.m_buffer
    {
      && m_ring_buffer.Valid() && pipe <= pipeCap
      && (m_readFd >= 0 <==> m_writeFd >= 0)
      && (m_readFd >= 0 ==> m_ring_buffer.m_buffer != null)
    }

    constructor (pipeCap: nat)
      ensures Valid() && this.pipeCap == pipeCap && m_readFd == -1 && m_writeFd == -1
      ensures fresh(m_ring_buffer) && m_ring_buffer.m_buffer == null
    {
      m_readFd, m_writeFd, pipe := -1, -1, 0;
      this.pipeCap := pipeCap;
      m_ring_buffer := new RingBuffer();
    }

    method CloseFd()
      modifies `m_readFd, `m_writeFd
      ensures m_readFd == -1 && m_writeFd == -1
    {
      m_readFd, m_writeFd := -1, -1;
    }

    /** The descriptors `pipe2` returns, or none when it fails, and the allocator's answer. */
    method Init(size: u64, shared: bool, fds: Fds, granted: bool) returns (r: int)
      requires Valid() && (fds.Opened? ==> fds.readEnd >= 0 && fds.writeEnd >= 0)
      modifies this, m_ring_buffer
      ensures Valid()
      ensures r == (if old(m_readFd) >= 0 then 1 else if fds.Refused? then -1
                    else if size == 0 || !granted then -2 else 0)
      ensures r == 1 || r == -1 ==> unchanged(this) && unchanged(m_ring_buffer)
      ensures r == -2 ==> m_readFd == -1 && m_writeFd == -1
      ensures r == 0 ==>
                && m_readFd == fds.readEnd && m_writeFd == fds.writeEnd && pipe == 0
                && m_ring_buffer.Contents() == []
                && m_ring_buffer.m_size <= size < 2 * m_ring_buffer.m_size
                && (old(m_ring_buffer.m_buffer) == null ==> m_ring_buffer.m_shared == shared)
    {
      if m_readFd >= 0 || m_writeFd >= 0 { return 1; }
      if fds.Refused? { return -1; }
      m_readFd, m_writeFd, pipe := fds.readEnd, fds.writeEnd, 0;
      m_ring_buffer.SetShared(shared);
      var n := m_ring_buffer.Alloc(size, granted);
      if n == 0 {
        CloseFd();
        return -2;
      }
      r := 0;
    }

    method Uninit() returns (r: int)
      requires Valid()
      modifies this, m_ring_buffer
      ensures Valid() && m_readFd == -1 && m_writeFd == -1 && m_ring_buffer.m_buffer == null && r == 0
    {
      CloseFd();
      m_ring_buffer.Free();
      r := 0;
    }

    function WriteableSize(): (n: u64)
      requires Valid() && m_ring_buffer.m_buffer != null
      reads this, m_ring_buffer, m_ring_buffer.m_buffer
      ensures n == m_ring_buffer.m_size - |m_ring_buffer.Contents()|
    {
      FreeAmount(m_ring_buffer.m_size, |m_ring_buffer.written|, m_ring_buffer.consumed);
      Sub(m_ring_buffer.m_size, m_ring_buffer.ReadableSize())
    }

    /** Delivers the `size` oldest bytes and clears one notification, or does nothing. */
    method Read(buf: array<byte>, size: u64, clearNotify: bool) returns (r: int)
      requires Valid() && m_readFd >= 0 && size <= buf.Length && buf != m_ring_buffer.m_buffer
      modifies `pipe, m_ring_buffer`m_out, m_ring_buffer`consumed, buf
      ensures Valid()
      ensures r == if size == 0 || size > |old(m_ring_buffer.Contents())| then -1 else size
      ensures r == -1 ==> m_ring_buffer.Contents() == old(m_ring_buffer.Contents()) && pipe == old(pipe)
                          && buf[..] == old(buf[..])
      ensures r != -1 ==> buf[..] == old(m_ring_buffer.Contents())[..size] + old(buf[size..])
                          && m_ring_buffer.Contents() == old(m_ring_buffer.Contents())[size..]
                          && pipe == if clearNotify && old(pipe) > 0 then old(pipe) - 1 else old(pipe)
    {
      if m_ring_buffer.ReadableSize() < size { return -1; }
      var n := m_ring_buffer.Read(buf, size);
      if n == 0 { return -1; }
      if clearNotify && pipe > 0 { pipe := pipe - 1; }
      r := n;
    }

    /** Appends all of the data and notifies, or does nothing. */
    method Write(buf: seq<byte>, size: u64, writeNotify: bool) returns (r: int)
      requires Valid() && m_readFd >= 0 && size <= |buf|
      modifies `pipe, m_ring_buffer`m_in, m_ring_buffer`written, m_ring_buffer.m_buffer
      ensures Valid()
      ensures r == if size == 0 || size > m_ring_buffer.m_size - |old(m_ring_buffer.Contents())| then -1 else size
      ensures r == -1 ==> m_ring_buffer.Contents() == old(m_ring_buffer.Contents()) && pipe == old(pipe)
      ensures r != -1 ==> m_ring_buffer.Contents() == old(m_ring_buffer.Contents()) + buf[..size]
                          && pipe == if writeNotify && old(pipe) < pipeCap then old(pipe) + 1 else old(pipe)
    {
      if WriteableSize() < size { return -1; }
      var n := m_ring_buffer.Write(buf, size);
      if n == 0 { return -1; }
      if writeNotify && pipe < pipeCap { pipe := pipe + 1; }
      r := n;
    }
  }
}
