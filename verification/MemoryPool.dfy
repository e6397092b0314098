/** A fixed-size block allocator whose free list is threaded through the free
    storage itself: the first eight bytes of a free block hold the index of the
    next one.  Blocks are linked lazily, one per allocation, so the list runs
    through the freed blocks and then into an untouched tail. */
module Pools {
  import opened Prelude

  const SIZEOF_SIZE_T: nat := 8

  /** The memory image of an unsigned value on a little-endian machine. */
  function LeBytes(v: nat, n: nat): (r: seq<byte>)
    ensures |r| == n
  {
    if n == 0 then [] else [v % 256] + LeBytes(v / 256, n - 1)
  }

  function LeValue(b: seq<byte>): nat {
    if b == [] then 0 else b[0] + 256 * LeValue(b[1..])
  }

  function Pow256(n: nat): nat {
    if n == 0 then 1 else 256 * Pow256(n - 1)
  }

  /** Storing a value and loading it back gives the value modulo the width. */
  lemma {:induction false} LoadAfterStore(v: nat, n: nat)
    ensures Pow256(n) > 0 && LeValue(LeBytes(v, n)) < Pow256(n)
    ensures v < Pow256(n) ==> LeValue(LeBytes(v, n)) == v
  {
    if n > 0 {
      LoadAfterStore(v / 256, n - 1);
      assert LeBytes(v, n)[1..] == LeBytes(v / 256, n - 1);
    }
  }

  lemma Pow256Of8()
    ensures Pow256(8) == TWO_TO_64
  {
    assert Pow256(4) == 0x1_0000_0000;
    assert Pow256(8) == 256 * (256 * (256 * (256 * Pow256(4))));
  }

  /** Rounds up to a multiple of the platform's strictest alignment. */
  function NextAligned(v: nat): (r: nat)
    ensures v <= r < v + 16 && exists q: nat :: r == q * 16
  {
    (v + 15) / 16 * 16
  }

  class MemoryPool {
    const blockCount: nat
    const alignedBlockSize: nat
    const pool: array<byte>
    var freeBlocks: nat
    var initializedBlocks: nat
    /** A byte address inside the pool, or null. */
    var nextFreeBlock: Option<nat>
    /** The indices of the free blocks in the order they will be handed out. */
    ghost var chain: seq<nat>

    ghost function BlockBytes(b: nat): (r: seq<byte>)
      requires b < blockCount && pool.Length == blockCount * alignedBlockSize
      reads pool
      ensures |r| == alignedBlockSize
    {
      BlockInPool(b);
      pool[b * alignedBlockSize..b * alignedBlockSize + alignedBlockSize]
    }

    lemma BlockInPool(b: nat)
      requires b < blockCount
      ensures b * alignedBlockSize + alignedBlockSize <= blockCount * alignedBlockSize
    {
      MulMono(b, blockCount, alignedBlockSize);
    }

    /** The index stored in the first bytes of block `b`. */
    ghost function Link(b: nat): nat
      requires b < blockCount && pool.Length == blockCount * alignedBlockSize
      requires alignedBlockSize >= SIZEOF_SIZE_T
      reads pool
    {
      LeValue(BlockBytes(b)[..SIZEOF_SIZE_T])
    }

    ghost predicate Live(b: nat)
      reads this
    {
      b < blockCount && b !in Free()
    }

    /** The abstract value of the pool: the blocks nobody holds. */
    ghost function Free(): set<nat>
      reads this
    {
      set b | b in chain
    }

    /** Every block that is live before and after holds the same bytes. */
    twostate predicate KeepsLive()
      reads this, pool
    {
      && pool.Length == blockCount * alignedBlockSize
      && forall b: nat :: old(Live(b)) && Live(b) ==> BlockBytes(b) == old(BlockBytes(b))
    }

    /** Every block but b holds the same bytes. */
    twostate predicate KeepsOthers(b: nat)
      reads pool
    {
      && pool.Length == blockCount * alignedBlockSize
      && forall c: nat :: c < blockCount && c != b ==> BlockBytes(c) == old(BlockBytes(c))
    }

    ghost predicate SizesOk() {
      && alignedBlockSize >= SIZEOF_SIZE_T
      && blockCount < TWO_TO_64
      && pool.Length == blockCount * alignedBlockSize
    }

    ghost predicate Valid()
      reads this, pool
    {
      && SizesOk()
      && |chain| == freeBlocks
      && NoDup(chain)
      && (forall k :: 0 <= k < |chain| ==> chain[k] < blockCount)
      && ChainEndsInTail()
      && (forall k :: 0 <= k < |chain| - 1 && chain[k] < initializedBlocks ==> Link(chain[k]) == chain[k + 1])
      && (chain != [] ==> nextFreeBlock == Some(AddrFromIndex(chain[0])))
      && (chain == [] && blockCount > 0 ==> nextFreeBlock == None)
    }

    /** The last entries of the chain are the blocks never touched so far, in index order. */
    ghost predicate ChainEndsInTail()
      reads this
    {
      var t := blockCount - initializedBlocks;
      && 0 <= t <= |chain|
      && (forall k :: 0 <= k < |chain| - t ==> chain[k] < initializedBlocks)
      && (forall k :: |chain| - t <= k < |chain| ==> chain[k] == initializedBlocks + (k - (|chain| - t)))
    }

    constructor (blockSize: nat, count: nat)
      requires blockSize >= 1 && count < TWO_TO_64
      ensures Valid() && fresh(pool)
      ensures blockCount == count && alignedBlockSize == NextAligned(blockSize)
      ensures chain == Iota(count)
    {
      var size := NextAligned(blockSize);
      blockCount := count;
      freeBlocks := count;
      alignedBlockSize := size;
      pool := new byte[count * size];
      nextFreeBlock := Some(0);
      initializedBlocks := 0;
      chain := Iota(count);
      new;
      if count > 0 {
        assert AddrFromIndex(chain[0]) == 0;
      }
    }

    function AddrFromIndex(i: nat): nat {
      i * alignedBlockSize
    }

    function IndexFromAddr(addr: nat): nat
      requires alignedBlockSize > 0
    {
      addr / alignedBlockSize
    }

    /** Addresses and indices of blocks are in bijection. */
    lemma IndexOfAddr(b: nat)
      requires alignedBlockSize > 0
      ensures IndexFromAddr(AddrFromIndex(b)) == b
    {
      DivUnique(AddrFromIndex(b), b, 0, alignedBlockSize);
    }

    lemma BlocksApart(b: nat, c: nat)
      requires b != c
      ensures b * alignedBlockSize + alignedBlockSize <= c * alignedBlockSize
           || c * alignedBlockSize + alignedBlockSize <= b * alignedBlockSize
    {
      if b < c {
        MulMono(b, c, alignedBlockSize);
      } else {
        MulMono(c, b, alignedBlockSize);
      }
    }

    /** memcpy of `data` to `offset` inside block `b`: no other block changes. */
    method Store(b: nat, offset: nat, data: seq<byte>)
      requires SizesOk() && b < blockCount && offset + |data| <= alignedBlockSize
      modifies pool
      ensures BlockBytes(b) == Splice(old(BlockBytes(b)), offset, data)
      ensures forall c: nat :: c < blockCount && c != b ==> BlockBytes(c) == old(BlockBytes(c))
    {
      BlockInPool(b);
      var at := AddrFromIndex(b) + offset;
      forall k | 0 <= k < |data| {
        pool[at + k] := data[k];
      }
      forall c: nat | c < blockCount && c != b
        ensures BlockBytes(c) == old(BlockBytes(c))
      {
        BlocksApart(b, c);
        BlockInPool(c);
      }
    }

    method StoreIndex(b: nat, v: nat)
      requires SizesOk() && b < blockCount && v < TWO_TO_64
      modifies pool
      ensures Link(b) == v
      ensures forall c: nat :: c < blockCount && c != b ==> BlockBytes(c) == old(BlockBytes(c))
    {
      Store(b, 0, LeBytes(v, SIZEOF_SIZE_T));
      assert BlockBytes(b)[..SIZEOF_SIZE_T] == LeBytes(v, SIZEOF_SIZE_T);
      LoadAfterStore(v, SIZEOF_SIZE_T);
      Pow256Of8();
    }

    /** Threads the first untouched block into the stored part of the chain. */
    method LinkOneUntouched()
      requires Valid()
      modifies this`initializedBlocks, pool
      ensures Valid()
      ensures chain != [] ==> chain[0] < initializedBlocks
      ensures forall b: nat :: b < blockCount && b !in chain ==> BlockBytes(b) == old(BlockBytes(b))
    {
      if initializedBlocks < blockCount {
        ghost var first := |chain| - (blockCount - initializedBlocks);
        assert chain[first] == initializedBlocks;
        StoreIndex(initializedBlocks, initializedBlocks + 1);
        initializedBlocks := initializedBlocks + 1;
        forall k | 0 <= k < |chain| - 1 && chain[k] < initializedBlocks
          ensures Link(chain[k]) == chain[k + 1]
        {
          if k < first {
            assert chain[k] != chain[first];
          } else {
            assert k == first && chain[first + 1] == initializedBlocks;
          }
        }
      }
    }

    /** Links one more untouched block, then pops the head of the chain.  Null comes
        back exactly when the size is too big or no block is free; otherwise block b
        leaves the free set.  No byte of a block that was live changes. */
    method Allocate(size: nat) returns (p: Option<nat>, ghost b: nat)
      requires Valid()
      modifies this, pool
      ensures Valid()
      ensures p == None <==> size > alignedBlockSize || old(freeBlocks) == 0
      ensures p == None ==> Free() == old(Free()) && freeBlocks == old(freeBlocks)
      ensures p.Some? ==> p.value == AddrFromIndex(b) && b in old(Free()) && b == old(chain)[0]
      ensures p.Some? ==> Free() == old(Free()) - {b} && freeBlocks == old(freeBlocks) - 1 && Live(b)
      ensures forall c: nat :: c < blockCount && c !in old(Free()) ==> BlockBytes(c) == old(BlockBytes(c))
      ensures KeepsLive()
    {
      hide BlockBytes, Link, ChainEndsInTail, NoDup;
      b := 0;
      if size > alignedBlockSize {
        return None, b;
      }
      LinkOneUntouched();
      if freeBlocks == 0 {
        return None, b;
      }
      b := chain[0];
      p := PopHead();
    }

    /** Takes the head of the chain; its link, stored in the block itself, is the new head. */
    method PopHead() returns (p: Option<nat>)
      requires Valid() && chain != [] && chain[0] < initializedBlocks
      modifies this
      ensures Valid() && p == Some(AddrFromIndex(old(chain)[0]))
      ensures chain == old(chain)[1..] && freeBlocks == old(freeBlocks) - 1
      ensures Free() == old(Free()) - {old(chain)[0]} && old(chain)[0] in old(Free()) && Live(old(chain)[0])
    {
      hide BlockBytes;
      assert chain[0] in Free();
      p := nextFreeBlock;
      freeBlocks := freeBlocks - 1;
      if freeBlocks > 0 {
        var nextIndex := LoadIndex(nextFreeBlock.value);
        nextFreeBlock := Some(AddrFromIndex(nextIndex));
      } else {
        nextFreeBlock := None;
      }
      chain := chain[1..];
    }

    /** The free-list link stored at a free block's address. */
    method LoadIndex(addr: nat) returns (next: nat)
      requires SizesOk() && chain != [] && chain[0] < blockCount && addr == AddrFromIndex(chain[0])
      ensures next == Link(chain[0])
    {
      BlockInPool(chain[0]);
      next := LeValue(pool[addr..addr + SIZEOF_SIZE_T]);
      assert BlockBytes(chain[0])[..SIZEOF_SIZE_T] == pool[addr..addr + SIZEOF_SIZE_T];
    }

    /** A holder writes into its block: the free list and every other block stay. */
    method WriteBlock(addr: nat, ghost b: nat, offset: nat, data: seq<byte>)
      requires Valid() && Live(b) && addr == AddrFromIndex(b) && offset + |data| <= alignedBlockSize
      modifies pool
      ensures Valid() && BlockBytes(b) == Splice(old(BlockBytes(b)), offset, data) && KeepsOthers(b)
    {
      hide Link, BlockBytes, Splice, ChainEndsInTail;
      IndexOfAddr(b);
      Store(IndexFromAddr(addr), offset, data);
      SameBytesSameLinks();
    }

    twostate lemma SameBytesSameLinks()
      requires SizesOk()
      ensures forall c: nat :: c < blockCount && BlockBytes(c) == old(BlockBytes(c)) ==> Link(c) == old(Link(c))
    {
      hide BlockBytes, LeValue;
    }

    /** A holder reads its block. */
    method ReadBlock(addr: nat, ghost b: nat, n: nat) returns (data: seq<byte>)
      requires SizesOk() && b < blockCount && addr == AddrFromIndex(b) && n <= alignedBlockSize
      ensures data == BlockBytes(b)[..n]
    {
      BlockInPool(b);
      data := pool[addr..addr + n];
    }

    /** Pushes live block b back on the chain, to be handed out next; null is ignored. */
    method Deallocate(p: Option<nat>, ghost b: nat)
      requires Valid()
      requires p.Some? ==> p.value == AddrFromIndex(b) && Live(b)
      modifies this, pool
      ensures Valid()
      ensures p == None ==> chain == old(chain)
      ensures p.Some? ==> chain == [b] + old(chain)
      ensures p.Some? ==> Free() == old(Free()) + {b} && freeBlocks == old(freeBlocks) + 1
      ensures forall c: nat :: Live(c) ==> BlockBytes(c) == old(BlockBytes(c))
      ensures KeepsLive()
    {
      hide BlockBytes;
      if p == None {
        return;
      }
      IndexOfAddr(b);
      PushLive(IndexFromAddr(p.value));
    }

    method PushLive(index: nat)
      requires Valid() && Live(index)
      modifies this, pool
      ensures Valid()
      ensures chain == [index] + old(chain)
      ensures forall b: nat :: b < blockCount && b != index ==> BlockBytes(b) == old(BlockBytes(b))
    {
      if index >= initializedBlocks {
        UntouchedIsFree(index);
      }
      var next := blockCount;
      if nextFreeBlock.Some? {
        IndexOfAddr(chain[0]);
        next := IndexFromAddr(nextFreeBlock.value);
      }
      ghost var tail := chain;
      assert next < TWO_TO_64 && (tail != [] ==> next == tail[0]);
      StoreIndex(index, next);
      assert forall k :: 0 <= k < |tail| - 1 && tail[k] < initializedBlocks ==> Link(tail[k]) == tail[k + 1];
      nextFreeBlock := Some(AddrFromIndex(index));
      freeBlocks := freeBlocks + 1;
      chain := [index] + tail;
      PushKeepsTail(tail, index);
      forall k | 0 <= k < |chain| - 1 && chain[k] < initializedBlocks
        ensures Link(chain[k]) == chain[k + 1]
      {
        if k > 0 {
          assert chain[k] == tail[k - 1];
        }
      }
    }

    /** Every untouched block is still free. */
    lemma UntouchedIsFree(b: nat)
      requires Valid() && initializedBlocks <= b < blockCount
      ensures b in chain
    {
      assert chain[|chain| - (blockCount - initializedBlocks) + (b - initializedBlocks)] == b;
    }

    lemma PushKeepsTail(tail: seq<nat>, index: nat)
      requires chain == [index] + tail && index < initializedBlocks
      requires var t := blockCount - initializedBlocks;
        && 0 <= t <= |tail|
        && (forall k :: 0 <= k < |tail| - t ==> tail[k] < initializedBlocks)
        && (forall k :: |tail| - t <= k < |tail| ==> tail[k] == initializedBlocks + (k - (|tail| - t)))
      ensures ChainEndsInTail()
    {
    }
  }
}
