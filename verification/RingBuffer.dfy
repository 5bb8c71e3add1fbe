/**
 ring_buffer.h and ring_buffer.cpp, called from one thread at a time.

 The class keeps the source's fields: an array and two word-sized indices that are never
 reduced. Two ghost fields say what they stand for: every byte written since the last
 reset, and the unbounded number of bytes read. The buffer then holds `written[consumed..]`
 however often the words have wrapped.
 */
module RingBuffers {
  import opened Bits

  /** The cells after a copy of `data` starting at cell `at` and continuing at cell 0. */
  function TwoPiece(cells: seq<byte>, at: nat, data: seq<byte>): (r: seq<byte>)
    requires at < |cells| && |data| <= |cells|
    ensures |r| == |cells|
  {
    var l := Min(|data|, |cells| - at);
    var first := cells[..at] + data[..l] + cells[at + l..];
    data[l..] + first[|data| - l..]
  }

  /** The bytes that a two-piece copy out of the cells delivers. */
  function Gather(cells: seq<byte>, at: nat, len: nat): (r: seq<byte>)
    requires at < |cells| && len <= |cells|
    ensures |r| == len
  {
    var l := Min(len, |cells| - at);
    cells[at..at + l] + cells[..len - l]
  }

  /** The cell that counter `j` addresses. */
  function Slot(j: nat, m: nat): (x: nat)
    requires m > 0
    ensures x < m
  {
    j % m
  }

  /** Byte number `j` of the history, from `start` on, is in the cell counter `j` addresses. */
  ghost predicate Window(cells: seq<byte>, history: seq<byte>, start: nat)
    requires |cells| > 0
  {
    forall j: nat :: start <= j < |history| ==> cells[Slot(j, |cells|)] == history[j]
  }

  /** The two pieces together fill the cells of consecutive counters. */
  lemma TwoPieceFills(cells: seq<byte>, c: nat, data: seq<byte>, j: nat)
    requires |cells| > 0 && |data| <= |cells| && c <= j < c + |data|
    ensures TwoPiece(cells, Slot(c, |cells|), data)[Slot(j, |cells|)] == data[j - c]
  {
    ModStep(c, j - c, |cells|);
  }

  /** The cell of a counter less than one lap behind the end of the copy is not touched. */
  lemma TwoPieceSpares(cells: seq<byte>, c: nat, data: seq<byte>, j: nat)
    requires |cells| > 0 && |data| <= |cells| && j < c && c + |data| <= j + |cells|
    ensures TwoPiece(cells, Slot(c, |cells|), data)[Slot(j, |cells|)] == cells[Slot(j, |cells|)]
  {
    var m, at, x := |cells|, Slot(c, |cells|), Slot(j, |cells|);
    if at <= x < at + |data| {
      ModStep(c, x - at, m);
      ModDistinct(j, c + (x - at), m);
    } else if x < at && x + m < at + |data| {
      ModStep(c, x + m - at, m);
      ModDistinct(j, c + (x + m - at), m);
    }
  }

  /** A write keeps the window, extended by the bytes written. */
  lemma WriteKeepsWindow(cells: seq<byte>, history: seq<byte>, start: nat, data: seq<byte>)
    requires |cells| > 0 && start <= |history| && |history| + |data| <= start + |cells|
    requires Window(cells, history, start)
    ensures Window(TwoPiece(cells, Slot(|history|, |cells|), data), history + data, start)
  {
    var c, m := |history|, |cells|;
    forall j: nat | start <= j < c + |data|
      ensures TwoPiece(cells, Slot(c, m), data)[Slot(j, m)] == (history + data)[j]
    {
      if j >= c {
        TwoPieceFills(cells, c, data, j);
      } else {
        TwoPieceSpares(cells, c, data, j);
      }
    }
  }

  /** A read delivers the oldest bytes of the window. */
  lemma ReadDelivers(cells: seq<byte>, history: seq<byte>, start: nat, len: nat)
    requires |cells| > 0 && start + len <= |history| && len <= |cells|
    requires Window(cells, history, start)
    ensures Gather(cells, Slot(start, |cells|), len) == history[start..start + len]
  {
    forall i: nat | i < len
      ensures Gather(cells, Slot(start, |cells|), len)[i] == history[start + i]
    {
      ModStep(start, i, |cells|);
      assert cells[Slot(start + i, |cells|)] == history[start + i];
    }
  }

  /** The word subtraction of two wrapped counters gives the exact distance between them. */
  lemma HeldAmount(produced: nat, consumed: nat)
    requires consumed <= produced < consumed + WORD
    ensures Sub(produced % WORD, consumed % WORD) == produced - consumed
  {
    var t := consumed / WORD - produced / WORD;
    ModUnique(produced % WORD - consumed % WORD, WORD, t, produced - consumed);
  }

  /** Both ways the source computes the free space agree with it. */
  lemma FreeAmount(size: u64, produced: nat, consumed: nat)
    requires consumed <= produced <= consumed + size
    ensures Add(Sub(size, produced % WORD), consumed % WORD) == size - (produced - consumed)
    ensures Sub(size, Sub(produced % WORD, consumed % WORD)) == size - (produced - consumed)
  {
    HeldAmount(produced, consumed);
    var free := size - (produced - consumed);
    var d := size - produced % WORD;
    ModUnique(d % WORD + consumed % WORD, WORD, produced / WORD - d / WORD - consumed / WORD, free);
    ModUnique(free, WORD, 0, free);
  }

  lemma AdvanceIndex(c: nat, n: nat)
    ensures Add(c % WORD, n) == (c + n) % WORD
  {
    var t := (c + n) / WORD - c / WORD;
    ModUnique(c % WORD + n, WORD, t, (c + n) % WORD);
  }

  /** What the fields of an allocated ring stand for. */
  ghost predicate Represents(cells: seq<byte>, size: u64, inIndex: u64, outIndex: u64,
                             order: nat, written: seq<byte>, consumed: nat)
  {
    && order < WORD_BITS && size == Pow2(order) == |cells|
    && inIndex == |written| % WORD && outIndex == consumed % WORD
    && consumed <= |written| <= consumed + size
    && Window(cells, written, consumed)
  }

  lemma AfterWrite(cells: seq<byte>, size: u64, inIndex: u64, outIndex: u64,
                   order: nat, written: seq<byte>, consumed: nat, data: seq<byte>)
    requires Represents(cells, size, inIndex, outIndex, order, written, consumed)
    requires |data| <= size - (|written| - consumed)
    ensures And(inIndex, size - 1) < size
    ensures Represents(TwoPiece(cells, And(inIndex, size - 1), data), size, Add(inIndex, |data|), outIndex,
                       order, written + data, consumed)
  {
    MaskedIndex(|written|, order);
    WriteKeepsWindow(cells, written, consumed, data);
    AdvanceIndex(|written|, |data|);
  }

  lemma AfterRead(cells: seq<byte>, size: u64, inIndex: u64, outIndex: u64,
                  order: nat, written: seq<byte>, consumed: nat, n: nat)
    requires Represents(cells, size, inIndex, outIndex, order, written, consumed)
    requires n <= |written| - consumed
    ensures And(outIndex, size - 1) == Slot(consumed, size) && n <= size == |cells|
    ensures Gather(cells, Slot(consumed, size), n) == written[consumed..consumed + n]
  {
    MaskedIndex(consumed, order);
    ReadDelivers(cells, written, consumed, n);
  }

  lemma FrontOfRest(s: seq<byte>, k: nat, n: nat)
    requires k + n <= |s|
    ensures s[k..][..n] == s[k..k + n]
  {
  }

  lemma AdvanceRead(cells: seq<byte>, size: u64, inIndex: u64, outIndex: u64,
                    order: nat, written: seq<byte>, consumed: nat, n: nat)
    requires Represents(cells, size, inIndex, outIndex, order, written, consumed)
    requires n <= |written| - consumed
    ensures Represents(cells, size, inIndex, Add(outIndex, n), order, written, consumed + n)
  {
    AdvanceIndex(consumed, n);
  }

  /** `memcpy` into an array. */
  method CopyInto(dst: array<byte>, at: nat, src: seq<byte>)
    requires at + |src| <= dst.Length
    modifies dst
    ensures dst[..] == old(dst[..at]) + src + old(dst[at + |src|..])
  {
    for i := 0 to |src|
      invariant forall k :: 0 <= k < dst.Length ==>
                  dst[k] == if at <= k < at + i then src[k - at] else old(dst[k])
    {
      dst[at + i] := src[i];
    }
  }

  /** The two `memcpy` calls of a write. */
  method Scatter(cells: array<byte>, at: nat, data: seq<byte>)
    requires at < cells.Length && |data| <= cells.Length
    modifies cells
    ensures cells[..] == TwoPiece(old(cells[..]), at, data)
  {
    var l := Min(|data|, cells.Length - at);
    CopyInto(cells, at, data[..l]);
    CopyInto(cells, 0, data[l..]);
  }

  lemma TwoCopies(was: seq<byte>, a: seq<byte>, b: seq<byte>)
    requires |a| + |b| <= |was|
    ensures (a + was[|a|..])[..|a|] == a
    ensures (a + was[|a|..])[..|a|] + b + (a + was[|a|..])[|a| + |b|..] == (a + b) + was[|a| + |b|..]
  {
  }

  /** The two `memcpy` calls of a read, which deliver `data`. */
  method Collect(buffer: array<byte>, cells: array<byte>, at: nat, len: nat, ghost data: seq<byte>)
    requires at < cells.Length && len <= cells.Length && len <= buffer.Length && buffer != cells
    requires data == Gather(cells[..], at, len)
    modifies buffer
    ensures buffer[..] == data + old(buffer[len..])
  {
    var l := Min(len, cells.Length - at);
    ghost var was := buffer[..];
    ghost var a, b := cells[at..at + l], cells[..len - l];
    assert data == a + b;
    CopyInto(buffer, 0, cells[at..at + l]);
    assert buffer[..] == a + was[l..];
    CopyInto(buffer, l, cells[..len - l]);
    assert buffer[..] == (a + was[l..])[..l] + b + (a + was[l..])[len..];
    TwoCopies(was, a, b);
  }

  lemma RestOfSum(s: seq<byte>, k: nat, t: seq<byte>)
    requires k <= |s|
    ensures (s + t)[k..] == s[k..] + t
  {
  }

  lemma BelowWord(k: nat)
    requires Pow2(k) < WORD
    ensures k < WORD_BITS
  {
    Pow2Word();
    if k > WORD_BITS { Pow2Mono(WORD_BITS, k); }
  }

  class RingBuffer {
    var m_buffer: array?<byte>
    var m_size: u64
    var m_in: u64
    var m_out: u64
    var m_shared: bool

    ghost var written: seq<byte>  // all bytes put in since the last reset
    ghost var consumed: nat       // how many of them have been taken out
    ghost var order: nat          // the size is two to this power

    ghost predicate Valid()
      reads this, m_buffer
    {
      m_buffer != null ==>
        Represents(m_buffer[..], m_size, m_in, m_out, order, written, consumed)
    }

    /** The bytes held, oldest first. */
    ghost function Contents(): seq<byte>
      reads this
    {
      if consumed <= |written| then written[consumed..] else []
    }

    constructor ()
      ensures Valid() && m_buffer == null && m_size == 0 && m_in == 0 && m_out == 0 && !m_shared
    {
      m_buffer, m_size, m_in, m_out, m_shared := null, 0, 0, 0, false;
    }

    method Reset()
      modifies `m_in, `m_out, `written, `consumed
      ensures m_in == 0 && m_out == 0 && written == [] && consumed == 0 && Contents() == []
    {
      m_in, m_out := 0, 0;
      written, consumed := [], 0;
    }

    /**
     Allocates and resets; `granted` is the allocator's answer. A size that is not a power
     of two is rounded down to one, and size zero is refused before anything is touched.
     */
    method Alloc(size: u64, granted: bool) returns (r: u64)
      requires Valid()
      modifies this
      ensures Valid()
      ensures m_shared == old(m_shared)
      ensures size == 0 ==> r == 0 && unchanged(this)
      ensures size > 0 && granted ==>
                && m_buffer != null && fresh(m_buffer) && Contents() == []
                && r == m_size && IsPow2(r) && r <= size < 2 * r
                && (r == size <==> IsPow2(size))
      ensures size > 0 && !granted ==>
                r == 0 && m_buffer == null && unchanged(`m_size) && unchanged(`m_in) && unchanged(`m_out)
    {
      var n := size;
      IsPowerOf2Correct(size);
      if !IsPowerOf2(size) {
        if size > 0 { RoundupRoundsDown(size); }
        n := RoundupPowOfTwo(size);
        if n == 0 { return 0; }
      }
      if !granted {
        m_buffer := null;
        return 0;
      }
      m_buffer := new byte[n];
      m_size := n;
      ghost var k: nat :| n == Pow2(k);
      order := k;
      BelowWord(k);
      Reset();
      r := n;
    }

    method Free()
      modifies this
      ensures Valid() && m_buffer == null && m_in == 0 && m_out == 0
      ensures m_size == old(m_size) && m_shared == old(m_shared)
    {
      Reset();
      m_buffer := null;
    }

    method SetShared(shared: bool)
      modifies `m_shared
      ensures m_shared == if m_buffer == null then shared else old(m_shared)
    {
      if m_buffer != null { return; }
      m_shared := shared;
    }

    /** The number of bytes held, computed from two wrapped words. */
    function ReadableSize(): (n: u64)
      requires Valid() && m_buffer != null
      reads this, m_buffer
      ensures n == |Contents()|
    {
      HeldAmount(|written|, consumed);
      Sub(m_in, m_out)
    }

    /** The free space, computed as `ring_buffer_write` does. */
    function Room(): (n: u64)
      requires Valid() && m_buffer != null
      reads this, m_buffer
      ensures n == m_size - |Contents()|
    {
      FreeAmount(m_size, |written|, consumed);
      Add(Sub(m_size, m_in), m_out)
    }

    /** The copy of a write, before the index moves: only free cells change. */
    method CopyIn(data: seq<byte>)
      requires Valid() && m_buffer != null && |data| <= m_size - |Contents()|
      modifies m_buffer
      ensures Represents(m_buffer[..], m_size, Add(m_in, |data|), m_out, order, written + data, consumed)
    {
      AfterWrite(m_buffer[..], m_size, m_in, m_out, order, written, consumed, data);
      Scatter(m_buffer, And(m_in, m_size - 1), data);
    }

    /** Where the oldest bytes held are. */
    lemma OldestBytes(n: nat)
      requires Valid() && m_buffer != null && n <= |Contents()|
      ensures n <= m_size == m_buffer.Length && m_size > 0
      ensures Gather(m_buffer[..], Slot(consumed, m_size), n) == Contents()[..n]
    {
      FrontOfRest(written, consumed, n);
      AfterRead(m_buffer[..], m_size, m_in, m_out, order, written, consumed, n);
    }

    lemma OutCell()
      requires Valid() && m_buffer != null
      ensures And(m_out, m_size - 1) == Slot(consumed, m_size)
    {
      MaskedIndex(consumed, order);
    }

    /** The copy of a read, before the index moves. */
    method CopyOut(buffer: array<byte>, n: nat)
      requires Valid() && m_buffer != null && n <= |Contents()| && n <= buffer.Length && buffer != m_buffer
      modifies buffer
      ensures buffer[..] == old(Contents()[..n] + buffer[n..])
    {
      OldestBytes(n);
      OutCell();
      Collect(buffer, m_buffer, And(m_out, m_size - 1), n, Contents()[..n]);
    }

    /** Appends exactly as much of `buffer` as fits, and changes nothing that is held. */
    method Write(buffer: seq<byte>, len: u64) returns (r: u64)
      requires Valid() && m_buffer != null && len <= |buffer|
      modifies `m_in, `written, m_buffer
      ensures Valid()
      ensures r == Min(len, m_size - |old(Contents())|)
      ensures Contents() == old(Contents()) + buffer[..r]
      ensures written == old(written) + buffer[..r]
    {
      r := Min(len, Room());
      ghost var data := buffer[..r];
      CopyIn(buffer[..r]);
      RestOfSum(written, consumed, data);
      m_in := Add(m_in, r);
      written := written + data;
    }

    /** Removes exactly the oldest bytes, as many as asked for and held, and delivers them. */
    method Read(buffer: array<byte>, len: u64) returns (r: u64)
      requires Valid() && m_buffer != null && len <= buffer.Length && buffer != m_buffer
      modifies `m_out, `consumed, buffer
      ensures Valid()
      ensures r == Min(len, |old(Contents())|)
      ensures buffer[..] == old(Contents())[..r] + old(buffer[r..])
      ensures Contents() == old(Contents())[r..]
      ensures consumed == old(consumed) + r
    {
      r := Min(len, ReadableSize());
      CopyOut(buffer, r);
      AdvanceRead(m_buffer[..], m_size, m_in, m_out, order, written, consumed, r);
      m_out := Add(m_out, r);
      consumed := consumed + r;
    }
  }
}
