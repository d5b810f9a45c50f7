/** The growing, compacting reply buffer: a byte queue, and what its growth costs. */
module ReplyBuffers {
  import opened ByteStrings

  const MAX_BUFFER_SIZE: nat := 0x7fff_ffff_ffff_ffff
  const SIZE_LIMIT: nat := 0x1_0000_0000_0000_0000

  // ---------------------------------------------------------------- growth

  /** The size after one more round of the growth loop; above the maximum the loop gives up. */
  function NextSize(size: nat): nat {
    if size < 64 then 64 else size + size / 2
  }

  /** The vector size after growing until `need` bytes fit, from `size`. */
  function GrownSize(size: nat, need: nat): (r: nat)
    ensures r >= size
    ensures need <= MAX_BUFFER_SIZE ==> need <= r
    decreases if size < need then need - size else 0
  {
    if need <= size || size > MAX_BUFFER_SIZE then size else GrownSize(NextSize(size), need)
  }

  /** The bytes copied by the resizes of that growth: each one copies the old vector. */
  function GrowthCost(size: nat, need: nat): nat
    decreases if size < need then need - size else 0
  {
    if need <= size || size > MAX_BUFFER_SIZE then 0 else size + GrowthCost(NextSize(size), need)
  }

  /** The size after pushing blocks of these lengths, when nothing is read in between. */
  function RunSize(size: nat, held: nat, blocks: seq<nat>): nat
    decreases |blocks|
  {
    if blocks == [] then size else RunSize(GrownSize(size, held + blocks[0]), held + blocks[0], blocks[1..])
  }

  function RunCost(size: nat, held: nat, blocks: seq<nat>): nat
    decreases |blocks|
  {
    if blocks == [] then 0
    else GrowthCost(size, held + blocks[0]) + RunCost(GrownSize(size, held + blocks[0]), held + blocks[0], blocks[1..])
  }

  function Sum(blocks: seq<nat>): nat {
    if blocks == [] then 0 else blocks[0] + Sum(blocks[1..])
  }

  function Max(a: nat, b: nat): nat {
    if a < b then b else a
  }

  lemma {:induction false} GrownSizeBound(size: nat, need: nat)
    ensures 2 * GrownSize(size, need) <= Max(2 * size, Max(128, 3 * need))
    ensures size >= 64 ==> GrowthCost(size, need) <= 3 * (GrownSize(size, need) - size)
    decreases if size < need then need - size else 0
  {
    if size < need && size <= MAX_BUFFER_SIZE {
      GrownSizeBound(NextSize(size), need);
    }
  }

  lemma GrowthUnfolds(size: nat, need: nat)
    ensures GrownSize(size, need)
            == if need <= size || size > MAX_BUFFER_SIZE then size else GrownSize(NextSize(size), need)
    ensures GrowthCost(size, need)
            == if need <= size || size > MAX_BUFFER_SIZE then 0 else size + GrowthCost(NextSize(size), need)
  {}

  lemma {:induction false} RunBound(size: nat, held: nat, blocks: seq<nat>)
    ensures 2 * RunSize(size, held, blocks) <= Max(2 * size, Max(128, 3 * (held + Sum(blocks))))
    ensures size >= 64 ==> RunCost(size, held, blocks) <= 3 * (RunSize(size, held, blocks) - size)
    ensures RunSize(size, held, blocks) >= size
    decreases |blocks|
  {
    if blocks != [] {
      GrownSizeBound(size, held + blocks[0]);
      RunBound(GrownSize(size, held + blocks[0]), held + blocks[0], blocks[1..]);
    }
  }

  /** Amortised growth: pushes into an empty buffer never leave it larger than 1.5 times the bytes pushed (or 64),
      and all resizes together copy at most three bytes per byte of the final size. */
  lemma {:induction false} AmortisedGrowth(blocks: seq<nat>)
    ensures 2 * RunSize(0, 0, blocks) <= Max(128, 3 * Sum(blocks))
    ensures RunSize(0, 0, blocks) == 0 ==> RunCost(0, 0, blocks) == 0
    ensures RunSize(0, 0, blocks) > 0 ==> RunCost(0, 0, blocks) <= 3 * (RunSize(0, 0, blocks) - 64)
    decreases |blocks|
  {
    RunBound(0, 0, blocks);
    if blocks != [] {
      if blocks[0] == 0 {
        AmortisedGrowth(blocks[1..]);
      } else {
        assert GrownSize(0, blocks[0]) == GrownSize(64, blocks[0]);
        GrownSizeBound(64, blocks[0]);
        RunBound(GrownSize(0, blocks[0]), blocks[0], blocks[1..]);
      }
    }
  }

  /** Copying `copied` bytes is cheap for a vector of that size. */
  predicate Cheap(size: nat, copied: nat) {
    (size == 0 && copied == 0) || (size >= 64 && copied <= 3 * (size - 64))
  }

  /** Growth keeps the copying cheap. */
  lemma GrowthCheap(size: nat, copied: nat, need: nat)
    requires Cheap(size, copied)
    ensures Cheap(GrownSize(size, need), copied + GrowthCost(size, need))
  {
    GrowthUnfolds(size, need);
    GrownSizeBound(if size < 64 then 64 else size, need);
  }

  /** Writing behind a stretch of the vector leaves the stretch and the size as they are. */
  lemma Spliced(vec: Bytes, at: nat, data: Bytes, read: nat, write: nat)
    requires read <= write <= at && at + |data| <= |vec|
    ensures var v := vec[..at] + data + vec[at + |data|..];
            |v| == |vec| && v[read..write] == vec[read..write] && v[at..at + |data|] == data
  {
  }

  // ---------------------------------------------------------------- the buffer

  class ReplyBuffer {
    var m_nReadPos: nat
    var m_nWritePos: nat
    var m_vecBuffer: seq<byte>
    /** The bytes copied by all resizes so far. */
    ghost var copied: nat

    ghost predicate Valid()
      reads this
    {
      m_nReadPos <= m_nWritePos <= |m_vecBuffer| && m_nWritePos - m_nReadPos <= MAX_BUFFER_SIZE
    }

    /** The queue of bytes pushed and not yet taken. */
    ghost function Contents(): (s: Bytes)
      requires Valid()
      reads this
      ensures |s| == m_nWritePos - m_nReadPos
    {
      m_vecBuffer[m_nReadPos..m_nWritePos]
    }

    /** All resizes so far copied at most three bytes per byte of the present vector. */
    ghost predicate Amortised()
      reads this
    {
      Cheap(|m_vecBuffer|, copied)
    }

    constructor ()
      ensures Amortised()
      ensures Valid() && Contents() == [] && m_vecBuffer == [] && m_nReadPos == 0 && copied == 0
    {
      m_nReadPos, m_nWritePos, m_vecBuffer, copied := 0, 0, [], 0;
    }

    function ReadableSize(): (n: nat)
      requires Valid()
      reads this
      ensures n == |Contents()|
    {
      m_nWritePos - m_nReadPos
    }

    function WritableSize(): nat
      requires Valid()
      reads this
    {
      |m_vecBuffer| - m_nWritePos
    }

    /** The bytes from the read position on, as the consumer hands them to the connection. */
    method ReadAll() returns (s: Bytes)
      requires Valid()
      ensures s == Contents()
    {
      s := m_vecBuffer[m_nReadPos..m_nReadPos + ReadableSize()];
    }

    /** Appends a block; a buffer that is already full takes nothing. */
    method PushData(data: Bytes) returns (n: nat)
      requires Valid()
      requires |Contents()| == MAX_BUFFER_SIZE || |Contents()| + |data| <= MAX_BUFFER_SIZE
      modifies this
      ensures Valid()
      ensures n == if |old(Contents())| == MAX_BUFFER_SIZE then 0 else |data|
      ensures Contents() == old(Contents()) + data[..n]
      ensures old(Amortised()) ==> Amortised()
      ensures n == 0 ==> m_vecBuffer == old(m_vecBuffer) && m_nReadPos == old(m_nReadPos) && copied == old(copied)
      ensures n > 0 && old(m_nReadPos) == 0 ==>
                m_nReadPos == 0 && |m_vecBuffer| == GrownSize(|old(m_vecBuffer)|, |old(Contents())| + n)
                && copied == old(copied) + GrowthCost(|old(m_vecBuffer)|, |old(Contents())| + n)
    {
      n := PushDataAt(data, 0);
      AdjustWritePtr(n);
    }

    /** Writes a block `offset` bytes behind the write position, without moving it: the queue is not changed. */
    method PushDataAt(data: Bytes, offset: nat) returns (n: nat)
      requires Valid()
      requires |Contents()| == MAX_BUFFER_SIZE || |Contents()| + |data| + offset <= MAX_BUFFER_SIZE
      modifies this
      ensures Valid() && Contents() == old(Contents())
      ensures old(Amortised()) ==> Amortised()
      ensures n == 0 ==> m_vecBuffer == old(m_vecBuffer) && m_nReadPos == old(m_nReadPos) && copied == old(copied)
      ensures n == if |Contents()| == MAX_BUFFER_SIZE then 0 else |data|
      ensures m_nWritePos + offset + n <= |m_vecBuffer| || n == 0
      ensures n > 0 ==> m_vecBuffer[m_nWritePos + offset..m_nWritePos + offset + n] == data
      ensures n > 0 && old(m_nReadPos) == 0 ==>
                m_nReadPos == 0 && |m_vecBuffer| == GrownSize(|old(m_vecBuffer)|, |Contents()| + n + offset)
                && copied == old(copied) + GrowthCost(|old(m_vecBuffer)|, |Contents()| + n + offset)
    {
      hide GrownSize, GrowthCost, Cheap;
      if |data| == 0 {
        return 0;
      }
      if ReadableSize() == MAX_BUFFER_SIZE {
        return 0;
      }
      GrowthUnfolds(|m_vecBuffer|, ReadableSize() + |data| + offset);
      AssureSpace(|data| + offset);
      assert |data| + offset <= WritableSize();
      var at := m_nWritePos + offset;
      Spliced(m_vecBuffer, at, data, m_nReadPos, m_nWritePos);
      m_vecBuffer := m_vecBuffer[..at] + data + m_vecBuffer[at + |data|..];
      n := |data|;
    }

    /** Publishes `n` bytes that were written behind the write position. */
    method AdjustWritePtr(n: nat)
      requires Valid() && m_nWritePos + n <= |m_vecBuffer| && |Contents()| + n <= MAX_BUFFER_SIZE
      modifies this`m_nWritePos
      ensures Valid() && m_nWritePos == old(m_nWritePos) + n
      ensures Contents() == old(Contents()) + m_vecBuffer[old(m_nWritePos)..m_nWritePos]
    {
      m_nWritePos := m_nWritePos + n;
    }

    /** Takes up to `size` bytes from the front. */
    method PeekData(size: nat) returns (out: Bytes)
      requires Valid() && size < SIZE_LIMIT
      modifies this`m_nReadPos
      ensures Valid()
      ensures out == if size <= |old(Contents())| then old(Contents())[..size] else old(Contents())
      ensures old(Contents()) == out + Contents()
    {
      out := PeekDataAt(size, 0);
      m_nReadPos := m_nReadPos + |out|;
    }

    /** Copies up to `size` bytes that stand `offset` behind the front. */
    method PeekDataAt(size: nat, offset: nat) returns (out: Bytes)
      requires Valid() && size + offset < SIZE_LIMIT
      ensures var from := if offset <= |Contents()| then Contents()[offset..] else [];
              out == if size <= |from| then from[..size] else from
    {
      var dataSize := ReadableSize();
      if size == 0 || dataSize <= offset {
        return [];
      }
      var nSize := size;
      if nSize + offset > dataSize {
        nSize := dataSize - offset;
      }
      out := m_vecBuffer[m_nReadPos + offset..m_nReadPos + offset + nSize];
    }

    /** Makes room for `size` more bytes, first by growing the vector, then by moving the content to its start. */
    method AssureSpace(size: nat)
      requires Valid()
      modifies this
      ensures Valid() && Contents() == old(Contents())
      ensures old(Amortised()) ==> Amortised()
      ensures |Contents()| + size <= MAX_BUFFER_SIZE ==> size <= WritableSize()
      ensures size <= old(WritableSize()) ==>
                m_vecBuffer == old(m_vecBuffer) && m_nReadPos == old(m_nReadPos) && copied == old(copied)
      ensures size > old(WritableSize()) ==>
                m_nReadPos == 0 && |m_vecBuffer| == GrownSize(|old(m_vecBuffer)|, |Contents()| + size)
                && copied == old(copied) + GrowthCost(|old(m_vecBuffer)|, |Contents()| + size)
    {
      hide GrownSize, GrowthCost, Cheap;
      if size <= WritableSize() {
        return;
      }
      var maxSize := |m_vecBuffer|;
      ghost var need := ReadableSize() + size;
      while size > WritableSize() + m_nReadPos
        invariant Valid() && m_nReadPos == old(m_nReadPos) && m_nWritePos == old(m_nWritePos)
        invariant maxSize == |m_vecBuffer| && old(m_vecBuffer) <= m_vecBuffer
        invariant GrownSize(maxSize, need) == GrownSize(|old(m_vecBuffer)|, need)
        invariant copied + GrowthCost(maxSize, need) == old(copied) + GrowthCost(|old(m_vecBuffer)|, need)
        decreases need - maxSize
      {
        GrowthUnfolds(maxSize, need);
        if maxSize < 64 {
          maxSize := 64;
        } else if maxSize <= MAX_BUFFER_SIZE {
          maxSize := maxSize + maxSize / 2;
        } else {
          break;
        }
        copied := copied + |m_vecBuffer|;
        m_vecBuffer := m_vecBuffer + seq(maxSize - |m_vecBuffer|, _ => 0);
      }
      GrowthUnfolds(maxSize, need);
      if old(Amortised()) {
        GrowthCheap(|old(m_vecBuffer)|, old(copied), need);
      }
      assert Contents() == old(Contents());
      if m_nReadPos > 0 {
        var dataSize := ReadableSize();
        m_vecBuffer := m_vecBuffer[m_nReadPos..m_nWritePos] + m_vecBuffer[dataSize..];
        m_nReadPos := 0;
        m_nWritePos := dataSize;
      }
    }

    /** Gives memory back: to the exact size of the content, unless it is not asked to be tight and half of it is in
        use. */
    method Shrink(tight: bool)
      requires Valid()
      modifies this
      ensures Valid() && Contents() == old(Contents())
      ensures |m_vecBuffer|
              == if !tight && |Contents()| > |old(m_vecBuffer)| / 2 then |old(m_vecBuffer)| else |Contents()|
    {
      if |m_vecBuffer| == 0 {
        return;
      }
      var oldCap := |m_vecBuffer|;
      var dataSize := ReadableSize();
      if !tight && dataSize > oldCap / 2 {
        return;
      }
      m_vecBuffer := m_vecBuffer[m_nReadPos..m_nReadPos + dataSize];
      m_nReadPos := 0;
      m_nWritePos := dataSize;
    }

    method Clear()
      requires Valid()
      modifies this
      ensures Valid() && Contents() == [] && m_vecBuffer == old(m_vecBuffer)
    {
      m_nReadPos, m_nWritePos := 0, 0;
    }

    method Swap(buf: ReplyBuffer)
      requires Valid() && buf.Valid()
      modifies this, buf
      ensures Valid() && buf.Valid()
      ensures Contents() == old(buf.Contents()) && buf.Contents() == old(Contents())
      ensures |m_vecBuffer| == |old(buf.m_vecBuffer)| && |buf.m_vecBuffer| == |old(m_vecBuffer)|
    {
      var vec, r, w := m_vecBuffer, m_nReadPos, m_nWritePos;
      m_vecBuffer := buf.m_vecBuffer;
      m_nReadPos := buf.m_nReadPos;
      m_nWritePos := buf.m_nWritePos;
      buf.m_vecBuffer := vec;
      buf.m_nReadPos := r;
      buf.m_nWritePos := w;
    }
  }

  // ---------------------------------------------------------------- a run of pushes

  function Flatten(blocks: seq<Bytes>): Bytes {
    if blocks == [] then [] else blocks[0] + Flatten(blocks[1..])
  }

  function Lengths(blocks: seq<Bytes>): (r: seq<nat>)
    ensures |r| == |blocks|
  {
    if blocks == [] then [] else [|blocks[0]|] + Lengths(blocks[1..])
  }

  lemma {:induction false} SumOfLengths(blocks: seq<Bytes>)
    ensures Sum(Lengths(blocks)) == |Flatten(blocks)|
  {
    if blocks != [] {
      SumOfLengths(blocks[1..]);
    }
  }

  lemma OneBlock(size: nat, held: nat, blocks: seq<Bytes>)
    requires blocks != []
    ensures Flatten(blocks) == blocks[0] + Flatten(blocks[1..])
    ensures var need := held + |blocks[0]|;
            && RunSize(size, held, Lengths(blocks)) == RunSize(GrownSize(size, need), need, Lengths(blocks[1..]))
            && RunCost(size, held, Lengths(blocks))
               == GrowthCost(size, need) + RunCost(GrownSize(size, need), need, Lengths(blocks[1..]))
  {
    assert Lengths(blocks)[1..] == Lengths(blocks[1..]);
  }

  lemma NoBlocks(size: nat, held: nat)
    ensures Flatten([]) == [] && RunSize(size, held, Lengths([])) == size && RunCost(size, held, Lengths([])) == 0
  {
  }

  /** Blocks pushed one by one into a new buffer: its size and the bytes its resizes copied are those of the growth
      functions, so the size is at most 1.5 times the content (or 64) and the copying at most three bytes per byte of
      it. */
  method PushBlocks(blocks: seq<Bytes>) returns (buf: ReplyBuffer)
    requires |Flatten(blocks)| <= MAX_BUFFER_SIZE
    ensures fresh(buf) && buf.Valid() && buf.Contents() == Flatten(blocks)
    ensures |buf.m_vecBuffer| == RunSize(0, 0, Lengths(blocks)) && buf.copied == RunCost(0, 0, Lengths(blocks))
    ensures 2 * |buf.m_vecBuffer| <= Max(128, 3 * |buf.Contents()|)
    ensures if buf.m_vecBuffer == [] then buf.copied == 0 else buf.copied <= 3 * (|buf.m_vecBuffer| - 64)
  {
    hide GrownSize, GrowthCost, RunSize, RunCost, Flatten, Lengths;
    buf := new ReplyBuffer();
    var rest := blocks;
    while rest != []
      invariant fresh(buf) && buf.Valid() && buf.m_nReadPos == 0 && buf.Contents() + Flatten(rest) == Flatten(blocks)
      invariant RunSize(|buf.m_vecBuffer|, |buf.Contents()|, Lengths(rest)) == RunSize(0, 0, Lengths(blocks))
      invariant buf.copied + RunCost(|buf.m_vecBuffer|, |buf.Contents()|, Lengths(rest))
                == RunCost(0, 0, Lengths(blocks))
      decreases |rest|
    {
      GrowthUnfolds(|buf.m_vecBuffer|, |buf.Contents()| + |rest[0]|);
      OneBlock(|buf.m_vecBuffer|, |buf.Contents()|, rest);
      assert buf.Contents() + (rest[0] + Flatten(rest[1..])) == (buf.Contents() + rest[0]) + Flatten(rest[1..]);
      var _ := buf.PushData(rest[0]);
      rest := rest[1..];
    }
    NoBlocks(|buf.m_vecBuffer|, |buf.Contents()|);
    SumOfLengths(blocks);
    AmortisedGrowth(Lengths(blocks));
  }
}
