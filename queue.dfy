/**
 * The block queue of 3rd/mempool/src/mempool.c:283-530: a bounded ring of
 * (block index, data length) entries over one pool, with a membership
 * bitmap that keeps a block from being queued twice.
 */
module Queue {
  import opened Wrappers
  import opened Config
  import opened Words
  import opened Bitmaps
  import opened Pool

  /** A live ring entry: the queued block's index and the length stored with it. */
  datatype Entry = Entry(block: nat, length: u64)

  /** The blocks named by a sequence of entries. */
  ghost function BlocksOf(entries: seq<Entry>): set<nat>
    decreases |entries|
  {
    if |entries| == 0 then {} else {entries[0].block} + BlocksOf(entries[1..])
  }

  /** A block is in BlocksOf exactly when some entry names it. */
  lemma {:induction false} BlocksOfMembers(entries: seq<Entry>, b: nat)
    ensures b in BlocksOf(entries) <==> exists k :: 0 <= k < |entries| && entries[k].block == b
    decreases |entries|
  {
    if |entries| > 0 {
      var rest := entries[1..];
      BlocksOfMembers(rest, b);
      if b in BlocksOf(rest) {
        var k :| 0 <= k < |rest| && rest[k].block == b;
        assert entries[k + 1].block == b;
      }
      if exists k :: 0 <= k < |entries| && entries[k].block == b {
        var k :| 0 <= k < |entries| && entries[k].block == b;
        if k > 0 {
          assert rest[k - 1].block == b;
        }
      }
    }
  }

  /** No block appears in two entries: there are as many blocks as entries. */
  ghost predicate Distinct(entries: seq<Entry>) {
    |BlocksOf(entries)| == |entries|
  }

  /** Appending an entry adds its block. */
  lemma {:induction false} BlocksOfAppend(entries: seq<Entry>, e: Entry)
    ensures BlocksOf(entries + [e]) == BlocksOf(entries) + {e.block}
    decreases |entries|
  {
    if |entries| > 0 {
      assert (entries + [e])[1..] == entries[1..] + [e];
      BlocksOfAppend(entries[1..], e);
    } else {
      assert (entries + [e])[1..] == [];
    }
  }

  /** There are never more blocks than entries. */
  lemma {:induction false} BlocksOfSize(entries: seq<Entry>)
    ensures |BlocksOf(entries)| <= |entries|
    decreases |entries|
  {
    if |entries| > 0 {
      BlocksOfSize(entries[1..]);
    }
  }

  /** Entries are distinct when the first block is not among the rest and the rest are distinct. */
  lemma DistinctCons(entries: seq<Entry>)
    requires |entries| > 0
    ensures Distinct(entries) <==>
      entries[0].block !in BlocksOf(entries[1..]) && Distinct(entries[1..])
  {
    BlocksOfSize(entries[1..]);
  }

  /** Dropping the first of distinct entries removes exactly its block. */
  lemma BlocksOfTail(entries: seq<Entry>)
    requires |entries| > 0 && Distinct(entries)
    ensures Distinct(entries[1..])
    ensures BlocksOf(entries[1..]) == BlocksOf(entries) - {entries[0].block}
  {
    DistinctCons(entries);
  }

  /** Appending an entry whose block is not there yet keeps the entries distinct. */
  lemma DistinctAppend(entries: seq<Entry>, e: Entry)
    requires Distinct(entries) && e.block !in BlocksOf(entries)
    ensures Distinct(entries + [e])
  {
    BlocksOfAppend(entries, e);
  }

  /** Distinct says no block sits at two positions. */
  lemma {:induction false} DistinctIsPairwise(entries: seq<Entry>)
    ensures Distinct(entries) <==>
      forall k, l :: 0 <= k < l < |entries| ==> entries[k].block != entries[l].block
    decreases |entries|
  {
    if |entries| > 0 {
      var rest := entries[1..];
      DistinctCons(entries);
      DistinctIsPairwise(rest);
      BlocksOfMembers(rest, entries[0].block);
      assert forall k :: 0 < k < |entries| ==> entries[k] == rest[k - 1];
      if Distinct(entries) {
        forall k, l | 0 <= k < l < |entries|
          ensures entries[k].block != entries[l].block
        {
          if k == 0 {
            assert rest[l - 1].block == entries[l].block;
          }
        }
      }
      if forall k, l :: 0 <= k < l < |entries| ==> entries[k].block != entries[l].block {
        forall k | 0 <= k < |rest|
          ensures rest[k].block != entries[0].block
        {
          assert entries[k + 1] == rest[k];
        }
      }
    }
  }

  /**
   * Slot k of a ring of the given capacity whose oldest entry is at head:
   * `(head + k) % capacity` without the division.
   */
  function RingSlot(head: nat, k: nat, capacity: nat): nat {
    if head + k < capacity then head + k else head + k - capacity
  }

  lemma RingSlotIsModulo(head: nat, k: nat, capacity: nat)
    requires head < capacity && k <= capacity
    ensures RingSlot(head, k, capacity) == (head + k) % capacity
  {
    if head + k < capacity {
      DivModUnique(head + k, capacity, 0, head + k);
    } else {
      DivModUnique(head + k, capacity, 1, head + k - capacity);
    }
  }

  /** `(s + 1) % capacity` for a slot s: the next slot round the ring. */
  lemma NextSlot(s: nat, capacity: nat)
    requires s < capacity
    ensures (s + 1) % capacity == if s + 1 < capacity then s + 1 else 0
  {
    if s + 1 < capacity {
      DivModUnique(s + 1, capacity, 0, s + 1);
    } else {
      DivModUnique(s + 1, capacity, 1, 0);
    }
  }

  /** `(s + 1) % capacity` (mempool.c:369, 385): the slot after s round the ring. */
  method Advance(s: nat, capacity: nat) returns (r: nat)
    requires s < capacity
    ensures r == RingSlot(s, 1, capacity) && r < capacity
  {
    NextSlot(s, capacity);
    r := (s + 1) % capacity;
  }

  /**
   * `queue_bitmap[idx >> 6] |= 1 << (idx & 63)` (mempool.c:373-374): marks
   * block idx, so the bitmap that mirrored s mirrors s' = s + {idx}.
   */
  method MarkQueued(bm: array<u64>, idx: nat, ghost s: set<nat>, ghost s': set<nat>)
    requires bm.Length == BITMAP_WORDS && idx < MAX_BLOCKS && Mirrors(bm[..], s) && s' == s + {idx}
    modifies bm
    ensures Mirrors(bm[..], s')
  {
    var wordIdx := Shr(idx, LOG2_BITMAP_EACH_NUM);
    var bitPos := And(idx, BITMAP_EACH_NUM - 1);
    ShiftMaskAddressing(idx);
    SetBit(bm, wordIdx, bitPos, s, s');
  }

  /**
   * `queue_bitmap[idx >> 6] &= ~(1 << (idx & 63))` (mempool.c:389-390):
   * unmarks block idx, so the bitmap that mirrored s mirrors s' = s - {idx}.
   */
  method UnmarkQueued(bm: array<u64>, idx: nat, ghost s: set<nat>, ghost s': set<nat>)
    requires bm.Length == BITMAP_WORDS && idx < MAX_BLOCKS && Mirrors(bm[..], s) && s' == s - {idx}
    modifies bm
    ensures Mirrors(bm[..], s')
  {
    var wordIdx := Shr(idx, LOG2_BITMAP_EACH_NUM);
    var bitPos := And(idx, BITMAP_EACH_NUM - 1);
    ShiftMaskAddressing(idx);
    ClearBit(bm, wordIdx, bitPos, s, s');
  }

  /**
   * Entry k of a ring whose oldest entry is at slot head sits in slot
   * RingSlot(head, k, capacity) of the index and length arrays.
   */
  ghost predicate RingHolds(entries: seq<Entry>, indices: seq<u16>, lengths: seq<u64>, head: nat) {
    |lengths| == |indices| && head < |indices| && |entries| <= |indices| &&
    forall k :: 0 <= k < |entries| ==>
      entries[k] == Entry(indices[RingSlot(head, k, |indices|)] as nat,
                          lengths[RingSlot(head, k, |indices|)])
  }

  /** Writing an entry into the slot after the last one appends it to the ring. */
  lemma RingPush(entries: seq<Entry>, indices: seq<u16>, lengths: seq<u64>, head: nat, e: Entry)
    requires RingHolds(entries, indices, lengths, head) && |entries| < |indices|
    requires e.block < 0x1_0000
    ensures RingHolds(entries + [e],
                      indices[RingSlot(head, |entries|, |indices|) := e.block as u16],
                      lengths[RingSlot(head, |entries|, |indices|) := e.length], head)
  {
    var t := RingSlot(head, |entries|, |indices|);
    var indices', lengths' := indices[t := e.block as u16], lengths[t := e.length];
    var entries' := entries + [e];
    forall k | 0 <= k < |entries'|
      ensures entries'[k] == Entry(indices'[RingSlot(head, k, |indices|)] as nat,
                                   lengths'[RingSlot(head, k, |indices|)])
    {
      if k < |entries| {
        assert RingSlot(head, k, |indices|) != t;
      }
    }
  }

  /** The oldest entry is in slot head; dropping it moves head one slot on. */
  lemma RingPop(entries: seq<Entry>, indices: seq<u16>, lengths: seq<u64>, head: nat)
    requires RingHolds(entries, indices, lengths, head) && |entries| > 0
    ensures entries[0] == Entry(indices[head] as nat, lengths[head])
    ensures RingHolds(entries[1..], indices, lengths, RingSlot(head, 1, |indices|))
  {
    assert RingSlot(head, 0, |indices|) == head;
    var head' := RingSlot(head, 1, |indices|);
    forall k | 0 <= k < |entries| - 1
      ensures entries[1..][k] == Entry(indices[RingSlot(head', k, |indices|)] as nat,
                                       lengths[RingSlot(head', k, |indices|)])
    {
      assert entries[1..][k] == entries[k + 1];
      assert RingSlot(head', k, |indices|) == RingSlot(head, k + 1, |indices|);
    }
  }

  /** The queued blocks are distinct blocks of a pool of blockCount blocks. */
  ghost predicate Queued(entries: seq<Entry>, blockCount: nat) {
    (forall k :: 0 <= k < |entries| ==> entries[k].block < blockCount) && Distinct(entries)
  }

  /** Queuing a block of the pool that is not queued yet adds exactly that block. */
  lemma QueuedPush(entries: seq<Entry>, blockCount: nat, e: Entry)
    requires Queued(entries, blockCount) && e.block < blockCount && e.block !in BlocksOf(entries)
    ensures Queued(entries + [e], blockCount)
    ensures BlocksOf(entries + [e]) == BlocksOf(entries) + {e.block}
  {
    DistinctAppend(entries, e);
    BlocksOfAppend(entries, e);
    assert forall k :: 0 <= k < |entries| ==> (entries + [e])[k] == entries[k];
  }

  /** Dequeuing the oldest entry removes exactly its block. */
  lemma QueuedPop(entries: seq<Entry>, blockCount: nat)
    requires Queued(entries, blockCount) && |entries| > 0
    ensures Queued(entries[1..], blockCount)
    ensures BlocksOf(entries[1..]) == BlocksOf(entries) - {entries[0].block}
  {
    BlocksOfTail(entries);
    assert forall k :: 0 <= k < |entries| - 1 ==> entries[1..][k] == entries[k + 1];
  }

  // ---------------------------------------------------------------------
  // The queue (`mempool_queue_t`, mempool.h:64-74).

  class BufferQueue {
    /** `pool`: the queue holds blocks of this pool. */
    const pool: MemoryPool
    /** `capacity`. */
    const capacity: nat
    /** `block_indices[capacity]`. */
    const blockIndices: array<u16>
    /** `data_lengths[capacity]`. */
    const dataLengths: array<u64>
    /** `queue_bitmap`: a set bit marks a queued block. */
    const queueBitmap: array<u64>
    /** `head`, `tail`, `count`. */
    var head: nat
    var tail: nat
    var count: nat

    /** The live entries, oldest first. */
    ghost var contents: seq<Entry>

    ghost predicate Valid()
      reads this, blockIndices, dataLengths, queueBitmap
    {
      0 < capacity <= pool.blockCount <= MAX_BLOCKS &&
      blockIndices.Length == capacity && queueBitmap.Length == BITMAP_WORDS &&
      queueBitmap != dataLengths &&
      count == |contents| && tail == RingSlot(head, count, capacity) &&
      RingHolds(contents, blockIndices[..], dataLengths[..], head) &&
      Queued(contents, pool.blockCount) && Mirrors(queueBitmap[..], BlocksOf(contents))
    }

    /** `tail == (head + count) % capacity`, the cursor relation the ring keeps. */
    lemma TailFollowsHead()
      requires Valid()
      ensures tail < capacity && tail == (head + count) % capacity
    {
      RingSlotIsModulo(head, count, capacity);
    }

    /** The inner part of mempool_queue_create (mempool.c:292-324). */
    constructor (p: MemoryPool, cap: nat)
      requires p.Geometry() && 0 < cap <= p.blockCount
      ensures Valid()
      ensures pool == p && capacity == cap
      ensures head == 0 && tail == 0 && count == 0 && contents == []
      ensures queueBitmap[..] == [0, 0, 0, 0]
      ensures fresh(blockIndices) && fresh(dataLengths) && fresh(queueBitmap)
    {
      pool := p;
      capacity := cap;
      blockIndices := new u16[cap];
      dataLengths := new u64[cap];
      queueBitmap := new u64[BITMAP_WORDS];
      head, tail, count := 0, 0, 0;
      contents := [];
      new;
      for i := 0 to BITMAP_WORDS
        invariant forall k :: 0 <= k < i ==> queueBitmap[k] == 0
        invariant head == 0 && tail == 0 && count == 0 && contents == []
      {
        queueBitmap[i] := 0;
      }
      assert queueBitmap[..] == [0, 0, 0, 0];
      MirrorsEmpty();
    }

    /**
     * `validate_queue_and_buffer` (mempool.c:341-362): 0 and the buffer's
     * block index when the ring has room and the buffer is a block of the
     * pool that is not queued yet, -1 otherwise.
     */
    method ValidateBuffer(buffer: int) returns (status: int, blockIdx: int)
      requires Valid()
      ensures status == 0 || status == -1
      ensures status == 0 <==>
        count < capacity && pool.BlockIndex(buffer) >= 0 &&
        pool.BlockIndex(buffer) !in BlocksOf(contents)
      ensures status == 0 ==> blockIdx == pool.BlockIndex(buffer)
    {
      if count >= capacity {
        return -1, -1;
      }
      blockIdx := pool.BlockIndex(buffer);
      if blockIdx < 0 || blockIdx >= pool.blockCount {
        return -1, blockIdx;
      }
      var wordIdx := Shr(blockIdx, LOG2_BITMAP_EACH_NUM);
      var bitPos := And(blockIdx, BITMAP_EACH_NUM - 1);
      ShiftMaskAddressing(blockIdx);
      assert BITMAP_EACH_NUM * wordIdx + bitPos == blockIdx;
      var queued := TestWordBit(queueBitmap, wordIdx, bitPos);
      assert queued <==> blockIdx in BlocksOf(contents);
      if queued {
        return -1, blockIdx;
      }
      return 0, blockIdx;
    }

    /**
     * `do_enqueue` (mempool.c:365-375): writes the entry at `tail`, moves
     * `tail` round the ring and marks the block as queued. The index fits
     * the `uint16_t` slot because there are at most 256 blocks.
     */
    method DoEnqueue(blockIdx: nat, dataLength: u64)
      requires Valid()
      requires count < capacity && blockIdx < pool.blockCount && blockIdx !in BlocksOf(contents)
      modifies this, blockIndices, dataLengths, queueBitmap
      ensures Valid()
      ensures contents == old(contents) + [Entry(blockIdx, dataLength)]
      ensures head == old(head) && count == old(count) + 1 && tail == RingSlot(old(tail), 1, capacity)
    {
      ghost var e := Entry(blockIdx, dataLength);
      RingPush(contents, blockIndices[..], dataLengths[..], head, e);
      QueuedPush(contents, pool.blockCount, e);
      blockIndices[tail] := blockIdx as u16;
      dataLengths[tail] := dataLength;
      tail := Advance(tail, capacity);
      count := count + 1;
      MarkQueued(queueBitmap, blockIdx, BlocksOf(contents), BlocksOf(contents + [e]));
      contents := contents + [e];
    }

    /**
     * `do_dequeue` (mempool.c:378-393): takes the entry at `head`, moves
     * `head` round the ring, unmarks the block and returns its offset.
     */
    method DoDequeue() returns (block: nat, dataLength: u64)
      requires Valid() && count > 0
      modifies this, queueBitmap
      ensures Valid()
      ensures block == pool.BlockOffset(old(contents[0].block)) && dataLength == old(contents[0].length)
      ensures contents == old(contents[1..])
      ensures tail == old(tail) && count == old(count) - 1 && head == RingSlot(old(head), 1, capacity)
    {
      RingPop(contents, blockIndices[..], dataLengths[..], head);
      QueuedPop(contents, pool.blockCount);
      var blockIdx := blockIndices[head];
      dataLength := dataLengths[head];
      head := Advance(head, capacity);
      count := count - 1;
      UnmarkQueued(queueBitmap, blockIdx as nat, BlocksOf(contents), BlocksOf(contents[1..]));
      contents := contents[1..];
      block := pool.BlockOffset(blockIdx as nat);
    }

    /**
     * `mempool_queue_enqueue_with_length` (mempool.c:401-425): 0 and the
     * buffer's block appended with its length when the buffer passes
     * validate_queue_and_buffer, -1 and no change otherwise.
     */
    method EnqueueWithLength(buffer: int, dataLength: u64) returns (r: int)
      requires Valid()
      modifies this, blockIndices, dataLengths, queueBitmap
      ensures Valid()
      ensures r == 0 || r == -1
      ensures r == 0 <==>
        old(count) < capacity && pool.BlockIndex(buffer) >= 0 &&
        pool.BlockIndex(buffer) !in old(BlocksOf(contents))
      ensures r == 0 ==>
        contents == old(contents) + [Entry(pool.BlockIndex(buffer), dataLength)] &&
        head == old(head) && count == old(count) + 1
      ensures r == -1 ==>
        contents == old(contents) && head == old(head) && tail == old(tail) && count == old(count) &&
        queueBitmap[..] == old(queueBitmap[..])
    {
      var status, blockIdx := ValidateBuffer(buffer);
      if status < 0 {
        return -1;
      }
      DoEnqueue(blockIdx, dataLength);
      return 0;
    }

    /** `mempool_queue_enqueue` (mempool.c:396-399): enqueue with length 0. */
    method Enqueue(buffer: int) returns (r: int)
      requires Valid()
      modifies this, blockIndices, dataLengths, queueBitmap
      ensures Valid()
      ensures r == 0 || r == -1
      ensures r == 0 <==>
        old(count) < capacity && pool.BlockIndex(buffer) >= 0 &&
        pool.BlockIndex(buffer) !in old(BlocksOf(contents))
      ensures r == 0 ==>
        contents == old(contents) + [Entry(pool.BlockIndex(buffer), 0)] &&
        head == old(head) && count == old(count) + 1
      ensures r == -1 ==>
        contents == old(contents) && head == old(head) && tail == old(tail) && count == old(count) &&
        queueBitmap[..] == old(queueBitmap[..])
    {
      r := EnqueueWithLength(buffer, 0);
    }

    /**
     * `mempool_queue_dequeue_with_length` (mempool.c:434-454): the oldest
     * block's offset and length, removed from the queue; no block and
     * length 0 from an empty queue.
     */
    method DequeueWithLength() returns (block: Option<nat>, dataLength: u64)
      requires Valid()
      modifies this, queueBitmap
      ensures Valid()
      ensures block.None? <==> old(contents) == []
      ensures block.None? ==>
        dataLength == 0 && contents == old(contents) && head == old(head) && tail == old(tail) &&
        queueBitmap[..] == old(queueBitmap[..])
      ensures block.Some? ==>
        block.value == pool.BlockOffset(old(contents[0].block)) && dataLength == old(contents[0].length) &&
        contents == old(contents[1..]) && tail == old(tail) && head == RingSlot(old(head), 1, capacity)
    {
      if count == 0 {
        return None, 0;
      }
      var b;
      b, dataLength := DoDequeue();
      block := Some(b);
    }

    /** `mempool_queue_dequeue` (mempool.c:428-432): the oldest block, its length dropped. */
    method Dequeue() returns (block: Option<nat>)
      requires Valid()
      modifies this, queueBitmap
      ensures Valid()
      ensures block.None? <==> old(contents) == []
      ensures block.None? ==>
        contents == old(contents) && head == old(head) && tail == old(tail) &&
        queueBitmap[..] == old(queueBitmap[..])
      ensures block.Some? ==>
        block.value == pool.BlockOffset(old(contents[0].block)) &&
        contents == old(contents[1..]) && tail == old(tail) && head == RingSlot(old(head), 1, capacity)
    {
      var dummy;
      block, dummy := DequeueWithLength();
    }

    /** `mempool_queue_peek` (mempool.c:457-478): the oldest block's offset, nothing removed. */
    method Peek() returns (block: Option<nat>)
      requires Valid()
      ensures block.None? <==> contents == []
      ensures block.Some? ==> block.value == pool.BlockOffset(contents[0].block)
    {
      if count == 0 {
        return None;
      }
      RingPop(contents, blockIndices[..], dataLengths[..], head);
      var blockIdx := blockIndices[head];
      return Some(pool.BlockOffset(blockIdx as nat));
    }

    /**
     * `mempool_queue_dequeue_batch_with_length` (mempool.c:481-507): removes
     * `min(count, max_count)` entries, oldest first, and returns their
     * offsets and lengths in order.
     */
    method DequeueBatchWithLength(maxCount: nat) returns (buffers: seq<nat>, lengths: seq<u64>, n: nat)
      requires Valid()
      modifies this, queueBitmap
      ensures Valid()
      ensures n == Min(old(count), maxCount) && |buffers| == n && |lengths| == n
      ensures forall k :: 0 <= k < n ==>
        buffers[k] == pool.BlockOffset(old(contents)[k].block) && lengths[k] == old(contents)[k].length
      ensures contents == old(contents)[n..] && tail == old(tail)
    {
      buffers, lengths := [], [];
      if maxCount == 0 {
        return buffers, lengths, 0;
      }
      n := Min(count, maxCount);
      ghost var queued := contents;
      var i := 0;
      while i < n
        invariant Valid()
        invariant 0 <= i <= n <= |queued| && contents == queued[i..] && tail == old(tail)
        invariant |buffers| == i && |lengths| == i
        invariant forall k :: 0 <= k < i ==>
          buffers[k] == pool.BlockOffset(queued[k].block) && lengths[k] == queued[k].length
      {
        ghost var e := contents[0];
        assert e == queued[i];
        var b, len := DoDequeue();
        assert queued[i..][1..] == queued[i + 1..];
        forall k | 0 <= k < i + 1
          ensures (buffers + [b])[k] == pool.BlockOffset(queued[k].block)
          ensures (lengths + [len])[k] == queued[k].length
        {
          if k < i {
            assert (buffers + [b])[k] == buffers[k] && (lengths + [len])[k] == lengths[k];
          }
        }
        buffers, lengths := buffers + [b], lengths + [len];
        i := i + 1;
      }
    }

    /** `mempool_queue_count` (mempool.c:510-516). */
    method Count() returns (r: nat)
      requires Valid()
      ensures r == |contents| && r <= capacity
    {
      return count;
    }

    /** `mempool_queue_is_empty` (mempool.c:519-523). */
    method IsEmpty() returns (r: bool)
      requires Valid()
      ensures r <==> contents == []
    {
      return count == 0;
    }

    /** `mempool_queue_is_full` (mempool.c:526-530): no room for another enqueue. */
    method IsFull() returns (r: bool)
      requires Valid()
      ensures r <==> |contents| == capacity
    {
      return count >= capacity;
    }
  }

  /**
   * `mempool_queue_create` (mempool.c:284-325): no queue for a zero
   * capacity or one larger than the pool's block count, else an empty ring.
   */
  method Create(pool: MemoryPool, capacity: nat) returns (queue: Option<BufferQueue>)
    requires pool.Geometry()
    ensures queue.None? <==> capacity == 0 || capacity > pool.blockCount
    ensures queue.Some? ==>
      var q := queue.value;
      fresh(q) && fresh(q.blockIndices) && fresh(q.dataLengths) && fresh(q.queueBitmap) &&
      q.Valid() && q.pool == pool && q.capacity == capacity && q.contents == [] &&
      q.head == 0 && q.tail == 0 && q.count == 0
  {
    if capacity == 0 || capacity > pool.blockCount {
      return None;
    }
    var q := new BufferQueue(pool, capacity);
    return Some(q);
  }
}
