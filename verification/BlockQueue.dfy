/**
 filters.cpp: the ring buffer in which filters hold back their input.  The number of bytes that it
 can hold is a whole number of blocks, and m_begin is an index rather than a pointer.
 */
module BlockQueues {
  import opened Wrappers
  import opened Integers
  import opened Bytes

  /** The `size` bytes of a ring that start at `begin`. */
  ghost function Ring(buffer: seq<byte>, begin: nat, size: nat): seq<byte>
    requires begin <= |buffer| && size <= |buffer|
  {
    if begin + size <= |buffer| then buffer[begin..begin + size]
    else buffer[begin..] + buffer[..begin + size - |buffer|]
  }

  lemma RingSize(buffer: seq<byte>, begin: nat, size: nat)
    requires begin <= |buffer| && size <= |buffer|
    ensures |Ring(buffer, begin, size)| == size
  {
  }

  lemma RingAt(buffer: seq<byte>, begin: nat, size: nat, i: nat)
    requires begin <= |buffer| && size <= |buffer| && i < size
    ensures |Ring(buffer, begin, size)| == size
    ensures Ring(buffer, begin, size)[i] == buffer[if begin + i < |buffer| then begin + i else begin + i - |buffer|]
  {
  }

  /** What lies behind the first `n` bytes of a ring, when these do not wrap around. */
  lemma RingDrop(buffer: seq<byte>, begin: nat, size: nat, n: nat)
    requires begin <= |buffer| && size <= |buffer| && n <= size && begin + n <= |buffer|
    ensures Ring(buffer, begin, size) == buffer[begin..begin + n] + Ring(buffer, begin + n, size - n)
    ensures n == size || begin + n == |buffer| ==> Ring(buffer, begin + n, size - n) == Ring(buffer, 0, size - n)
  {
    hide Ring;
    var r, q := Ring(buffer, begin, size), Ring(buffer, begin + n, size - n);
    RingSize(buffer, begin, size);
    RingSize(buffer, begin + n, size - n);
    RingSize(buffer, 0, size - n);
    forall i | 0 <= i < size
      ensures r[i] == (buffer[begin..begin + n] + q)[i]
    {
      RingAt(buffer, begin, size, i);
      if i >= n {
        RingAt(buffer, begin + n, size - n, i - n);
      }
    }
    forall i | 0 <= i < size - n && (n == size || begin + n == |buffer|)
      ensures q[i] == Ring(buffer, 0, size - n)[i]
    {
      RingAt(buffer, begin + n, size - n, i);
      RingAt(buffer, 0, size - n, i);
    }
  }

  function Capacity(blockSize: nat, maxBlocks: nat): nat {
    blockSize * maxBlocks
  }

  /** Where the source copies `s` to, in one piece or in two. */
  ghost predicate Stored(buffer: seq<byte>, buffer': seq<byte>, begin: nat, size: nat, s: seq<byte>) {
    && |buffer'| == |buffer| && begin <= |buffer| && size + |s| <= |buffer|
    && var end := if size < |buffer| - begin then begin + size else begin + size - |buffer|;
    && var len := Min(|s|, |buffer| - end);
    && (forall i :: 0 <= i < |buffer| ==>
         buffer'[i] == if end <= i < end + len then s[i - end] else if i < |s| - len then s[len + i] else buffer[i])
  }

  lemma StoredSize(buffer: seq<byte>, buffer': seq<byte>, begin: nat, size: nat, s: seq<byte>)
    requires Stored(buffer, buffer', begin, size, s)
    ensures |buffer'| == |buffer| && begin <= |buffer| && size + |s| <= |buffer|
  {
  }

  lemma RingPutAt(buffer: seq<byte>, buffer': seq<byte>, begin: nat, size: nat, s: seq<byte>, i: nat)
    requires Stored(buffer, buffer', begin, size, s) && i < size + |s|
    ensures |Ring(buffer', begin, size + |s|)| == size + |s| && |Ring(buffer, begin, size)| == size
    ensures Ring(buffer', begin, size + |s|)[i] == if i < size then Ring(buffer, begin, size)[i] else s[i - size]
  {
    hide Ring;
    RingAt(buffer', begin, size + |s|, i);
    RingSize(buffer, begin, size);
    if i < size {
      RingAt(buffer, begin, size, i);
    }
  }

  lemma RingPut(buffer: seq<byte>, buffer': seq<byte>, begin: nat, size: nat, s: seq<byte>)
    requires Stored(buffer, buffer', begin, size, s)
    ensures Ring(buffer', begin, size + |s|) == Ring(buffer, begin, size) + s
  {
    var r, r' := Ring(buffer, begin, size), Ring(buffer', begin, size + |s|);
    hide Ring, Stored;
    StoredSize(buffer, buffer', begin, size, s);
    RingSize(buffer, begin, size);
    RingSize(buffer', begin, size + |s|);
    forall i | 0 <= i < |r'|
      ensures r'[i] == (r + s)[i]
    {
      RingPutAt(buffer, buffer', begin, size, s, i);
    }
  }

  /** A block that starts at a multiple of the block size, before the end of the buffer, ends within it. */
  lemma BlockFits(begin: nat, blockSize: nat, maxBlocks: nat)
    requires blockSize > 0 && begin % blockSize == 0
    ensures begin < Capacity(blockSize, maxBlocks) ==> begin + blockSize <= Capacity(blockSize, maxBlocks)
    ensures (begin + blockSize) % blockSize == 0 && 0 % blockSize == 0
  {
    var q := begin / blockSize;
    DivModUnique(begin + blockSize, blockSize, q + 1, 0);
    DivModUnique(0, blockSize, 0, 0);
    if begin < blockSize * maxBlocks {
      if q >= maxBlocks {
        MulLe(maxBlocks, q, blockSize);
      } else {
        MulLe(q + 1, maxBlocks, blockSize);
      }
    }
  }

  class BlockQueue {
    var m_buffer: array<byte>
    var m_blockSize: nat
    var m_maxBlocks: nat
    var m_size: nat
    var m_begin: nat

    ghost predicate Valid()
      reads this
    {
      && m_buffer.Length == Capacity(m_blockSize, m_maxBlocks)
      && m_begin <= m_buffer.Length && m_size <= m_buffer.Length && (m_begin == m_buffer.Length ==> m_begin == 0)
    }

    /** Every block lies in one piece. */
    ghost predicate Aligned()
      reads this
    {
      m_blockSize > 0 && m_begin % m_blockSize == 0
    }

    ghost function Contents(): seq<byte>
      reads this, m_buffer
      requires Valid()
    {
      Ring(m_buffer[..], m_begin, m_size)
    }

    ghost predicate SameShape(buffer: array<byte>, blockSize: nat, maxBlocks: nat)
      reads this
    {
      m_buffer == buffer && m_blockSize == blockSize && m_maxBlocks == maxBlocks
    }

    constructor ()
      ensures Valid() && fresh(m_buffer) && Contents() == []
    {
      m_buffer := new byte[0];
      m_blockSize, m_maxBlocks, m_size, m_begin := 0, 0, 0, 0;
    }

    method ResetQueue(blockSize: nat, maxBlocks: nat)
      modifies this
      ensures Valid() && fresh(m_buffer) && m_blockSize == blockSize && m_maxBlocks == maxBlocks
      ensures Contents() == [] && m_begin == 0
    {
      hide Capacity;
      m_buffer := new byte[Capacity(blockSize, maxBlocks)](_ => 0);
      m_blockSize := blockSize;
      m_maxBlocks := maxBlocks;
      m_size := 0;
      m_begin := 0;
    }

    method GetBlock() returns (block: Option<seq<byte>>)
      requires Valid() && Aligned()
      modifies this
      ensures Valid() && Aligned() && SameShape(old(m_buffer), old(m_blockSize), old(m_maxBlocks))
      ensures old(m_size) < m_blockSize ==> block == None && Contents() == old(Contents())
      ensures old(m_size) >= m_blockSize ==>
                block == Some(old(Contents())[..m_blockSize]) && Contents() == old(Contents())[m_blockSize..]
    {
      hide Capacity, Ring;
      if m_size >= m_blockSize {
        BlockFits(m_begin, m_blockSize, m_maxBlocks);
        RingDrop(m_buffer[..], m_begin, m_size, m_blockSize);
        block := Some(m_buffer[m_begin..m_begin + m_blockSize]);
        m_begin := m_begin + m_blockSize;
        if m_begin == m_buffer.Length {
          m_begin := 0;
        }
        m_size := m_size - m_blockSize;
      } else {
        block := None;
      }
    }

    /** As many of the first `limit` bytes as lie in one piece. */
    method GetContigousBlocks(limit: nat) returns (bytes: seq<byte>)
      requires Valid()
      modifies this
      ensures Valid() && SameShape(old(m_buffer), old(m_blockSize), old(m_maxBlocks))
      ensures |bytes| == Min(limit, Min(m_buffer.Length - old(m_begin), old(m_size)))
      ensures old(Contents()) == bytes + Contents()
      ensures old(m_begin + m_size) > m_buffer.Length && limit >= m_buffer.Length ==> m_begin == 0
    {
      hide Capacity, Ring;
      var numberOfBytes := Min(limit, Min(m_buffer.Length - m_begin, m_size));
      RingDrop(m_buffer[..], m_begin, m_size, numberOfBytes);
      bytes := m_buffer[m_begin..m_begin + numberOfBytes];
      m_begin := m_begin + numberOfBytes;
      m_size := m_size - numberOfBytes;
      if m_size == 0 || m_begin == m_buffer.Length {
        m_begin := 0;
      }
    }

    /** Everything that is left, in at most two pieces. */
    method GetAll() returns (outString: seq<byte>)
      requires Valid()
      modifies this
      ensures Valid() && SameShape(old(m_buffer), old(m_blockSize), old(m_maxBlocks))
      ensures outString == old(Contents()) && Contents() == []
    {
      hide Capacity;
      var ptr := GetContigousBlocks(Capacity(m_blockSize, m_maxBlocks));
      assert m_begin + m_size <= m_buffer.Length;
      outString := ptr + m_buffer[m_begin..m_begin + m_size];
      m_size := 0;
    }

    method Put(inString: seq<byte>)
      requires Valid() && m_size + |inString| <= m_buffer.Length
      modifies this`m_size, m_buffer
      ensures Valid() && m_begin == old(m_begin) && Contents() == old(Contents()) + inString
      ensures m_size == old(m_size) + |inString|
    {
      hide Capacity, Ring;
      var length := |inString|;
      var end := if m_size < m_buffer.Length - m_begin then m_begin + m_size else m_begin + m_size - m_buffer.Length;
      var len := Min(length, m_buffer.Length - end);
      ghost var before := m_buffer[..];
      forall i | 0 <= i < len {
        m_buffer[end + i] := inString[i];
      }
      if len < length {
        forall i | 0 <= i < length - len {
          m_buffer[i] := inString[len + i];
        }
      }
      assert Stored(before, m_buffer[..], m_begin, m_size, inString);
      RingPut(before, m_buffer[..], m_begin, m_size, inString);
      m_size := m_size + length;
    }
  }
}
