/** One piece being downloaded: which of its blocks are still missing, when
    each was last requested, and the bytes received so far. */
module Pieces {
  import opened Prelude
  import opened Layout
  import opened Pools

  /** time_point::min(): the request time of a block never requested. */
  const TIME_MIN: int := -0x8000_0000_0000_0000
  const SIZEOF_UINT16: nat := 2

  function BlocksIn(size: nat): nat {
    ChunkCount(size, BLOCK_SIZE)
  }

  // ----- the abstract piece -----------------------------------------------

  /** `open` lists the blocks not received yet, in the order they are tried. */
  datatype PieceState = PieceState(size: nat, data: seq<byte>, requestTime: seq<int>, open: seq<nat>)

  ghost predicate PieceOk(p: PieceState, size: nat) {
    && p.size == size && 1 <= size <= MAX_PIECE_SIZE
    && |p.data| == size
    && |p.requestTime| == BlocksIn(size)
    && NoDup(p.open)
    && (forall b :: b in p.open ==> b < BlocksIn(size))
  }

  function FreshPiece(size: nat): PieceState {
    PieceState(size, seq(size, _ => 0), seq(BlocksIn(size), _ => TIME_MIN), Iota(BlocksIn(size)))
  }

  lemma FreshPieceOk(size: nat)
    requires 1 <= size <= MAX_PIECE_SIZE
    ensures PieceOk(FreshPiece(size), size)
    ensures 1 <= BlocksIn(size) <= TWO_TO_16 && 0 in FreshPiece(size).open
  {
    CeilDivBounds(size, BLOCK_SIZE);
    assert FreshPiece(size).open[0] == 0;
  }

  /** The n bytes at `offset` are inside a piece of the given size. */
  predicate InPiece(size: nat, offset: nat, n: nat) {
    offset < size && offset + n <= size
  }

  lemma BlockOfOffset(size: nat, offset: nat)
    requires offset < size
    ensures offset / BLOCK_SIZE < BlocksIn(size)
  {
    ChunksPartition(size, BLOCK_SIZE, offset);
  }

  /** An arrival the piece can take: the block is there already, or its bytes are inside. */
  predicate Arrives(p: PieceState, offset: nat, n: nat) {
    offset < p.size && (offset / BLOCK_SIZE in p.open ==> offset + n <= p.size)
  }

  /** The first copy of a block is kept; later copies are ignored. */
  function Receive(p: PieceState, block: seq<byte>, offset: nat): PieceState
    requires offset / BLOCK_SIZE in p.open ==> offset + |block| <= |p.data|
  {
    var b := offset / BLOCK_SIZE;
    if b !in p.open then p
    else p.(data := Splice(p.data, offset, block), open := SwapRemove(p.open, IndexOf(p.open, b)))
  }

  lemma ReceiveOk(p: PieceState, size: nat, block: seq<byte>, offset: nat)
    requires PieceOk(p, size) && Arrives(p, offset, |block|)
    ensures PieceOk(Receive(p, block, offset), size)
    ensures forall b :: b in Receive(p, block, offset).open <==> b in p.open && b != offset / BLOCK_SIZE
  {
    var b := offset / BLOCK_SIZE;
    if b in p.open {
      SwapRemoveNoDup(p.open, IndexOf(p.open, b));
    }
  }

  /** A block may be asked for if it never was, or if its last request is too old. */
  predicate Requestable(requestTime: seq<int>, b: nat, now: int, timeout: int) {
    b < |requestTime| && (requestTime[b] == TIME_MIN || now - timeout > requestTime[b])
  }

  /** What one request reads from the clock: the time at which block b of piece p is looked
      at, and the time with which a granted block is stamped. */
  datatype Clock = Clock(read: nat -> nat -> int, stamp: int)

  /** A clock that stands still. */
  function StillAt(time: int): Clock {
    Clock(p => b => time, time)
  }

  /** The first requestable block in trial order. */
  function NextBlock(open: seq<nat>, requestTime: seq<int>, clock: nat -> int, timeout: int): (r: Option<nat>)
    ensures r == None <==> forall b :: b in open ==> !Requestable(requestTime, b, clock(b), timeout)
    ensures r.Some? ==> r.value in open && Requestable(requestTime, r.value, clock(r.value), timeout)
  {
    if open == [] then None
    else if Requestable(requestTime, open[0], clock(open[0]), timeout) then Some(open[0])
    else NextBlock(open[1..], requestTime, clock, timeout)
  }

  /** The answer is the first candidate, whatever follows it. */
  lemma {:induction false} NextBlockAt(open: seq<nat>, requestTime: seq<int>, clock: nat -> int, timeout: int, k: nat)
    requires k < |open| && Requestable(requestTime, open[k], clock(open[k]), timeout)
    requires forall j :: 0 <= j < k ==> !Requestable(requestTime, open[j], clock(open[j]), timeout)
    ensures NextBlock(open, requestTime, clock, timeout) == Some(open[k])
  {
    if k > 0 {
      NextBlockAt(open[1..], requestTime, clock, timeout, k - 1);
    }
  }

  lemma NextBlockInRange(p: PieceState, clock: nat -> int, timeout: int)
    ensures var r := NextBlock(p.open, p.requestTime, clock, timeout); r.Some? ==> r.value < |p.requestTime|
  {
  }

  function MarkRequested(p: PieceState, b: nat, now: int): PieceState
    requires b < |p.requestTime|
  {
    p.(requestTime := p.requestTime[b := now])
  }

  /** The number of blocks with no request time. */
  function Unrequested(requestTime: seq<int>): nat {
    if requestTime == [] then 0
    else (if requestTime[0] == TIME_MIN then 1 else 0) + Unrequested(requestTime[1..])
  }

  lemma {:induction false} UnrequestedUpdate(ts: seq<int>, b: nat, now: int)
    requires b < |ts| && now != TIME_MIN
    ensures Unrequested(ts) == Unrequested(ts[b := now]) + (if ts[b] == TIME_MIN then 1 else 0)
  {
    if b > 0 {
      assert ts[b := now][1..] == ts[1..][b - 1 := now];
      UnrequestedUpdate(ts[1..], b - 1, now);
    } else {
      assert ts[b := now][1..] == ts[1..];
    }
  }

  lemma {:induction false} UnrequestedZero(ts: seq<int>)
    ensures Unrequested(ts) <= |ts|
    ensures Unrequested(ts) == 0 <==> TIME_MIN !in ts
    ensures (forall k :: 0 <= k < |ts| ==> ts[k] == TIME_MIN) ==> Unrequested(ts) == |ts|
  {
    if ts != [] {
      assert ts == [ts[0]] + ts[1..];
      UnrequestedZero(ts[1..]);
    }
  }

  // ----- assembling a piece from arrivals in any order ---------------------

  datatype Arrival = Arrival(block: seq<byte>, offset: nat)

  /** The arrival is exactly one block of the piece. */
  ghost predicate ExactBlock(size: nat, a: Arrival) {
    var b := a.offset / BLOCK_SIZE;
    b < BlocksIn(size) && a.offset == b * BLOCK_SIZE && |a.block| == ChunkLen(size, BLOCK_SIZE, b)
  }

  ghost function ReceiveAll(size: nat, arrivals: seq<Arrival>): (p: PieceState)
    requires 1 <= size <= MAX_PIECE_SIZE
    requires forall a :: a in arrivals ==> ExactBlock(size, a)
    ensures PieceOk(p, size)
  {
    FreshPieceOk(size);
    if arrivals == [] then FreshPiece(size)
    else
      var n := |arrivals| - 1;
      var p := ReceiveAll(size, arrivals[..n]);
      ExactInPiece(size, arrivals[n]);
      ReceiveOk(p, size, arrivals[n].block, arrivals[n].offset);
      Receive(p, arrivals[n].block, arrivals[n].offset)
  }

  lemma ExactInPiece(size: nat, a: Arrival)
    requires ExactBlock(size, a)
    ensures InPiece(size, a.offset, |a.block|)
  {
    ChunkEnds(size, BLOCK_SIZE, a.offset / BLOCK_SIZE);
  }

  ghost function FirstCopy(arrivals: seq<Arrival>, b: nat): Option<seq<byte>> {
    if arrivals == [] then None
    else if arrivals[0].offset / BLOCK_SIZE == b then Some(arrivals[0].block)
    else FirstCopy(arrivals[1..], b)
  }

  lemma {:induction false} FirstCopyAppend(arrivals: seq<Arrival>, a: Arrival, b: nat)
    ensures FirstCopy(arrivals + [a], b)
         == if FirstCopy(arrivals, b).Some? || a.offset / BLOCK_SIZE != b
            then FirstCopy(arrivals, b) else Some(a.block)
  {
    if arrivals != [] {
      assert (arrivals + [a])[1..] == arrivals[1..] + [a];
      FirstCopyAppend(arrivals[1..], a, b);
    } else {
      assert ([] + [a])[1..] == [];
    }
  }

  /** Block b of the piece's data. */
  ghost function BlockData(data: seq<byte>, b: nat): (r: seq<byte>)
    requires b < BlocksIn(|data|)
    ensures |r| == ChunkLen(|data|, BLOCK_SIZE, b)
  {
    ChunkEnds(|data|, BLOCK_SIZE, b);
    data[b * BLOCK_SIZE..b * BLOCK_SIZE + ChunkLen(|data|, BLOCK_SIZE, b)]
  }

  /** Whatever the order and the duplicates, the blocks received are those with
      a copy, and each holds its first copy. */
  lemma {:induction false} AssemblyOfFirstCopies(size: nat, arrivals: seq<Arrival>, b: nat)
    requires 1 <= size <= MAX_PIECE_SIZE && b < BlocksIn(size)
    requires forall a :: a in arrivals ==> ExactBlock(size, a)
    ensures var p := ReceiveAll(size, arrivals);
      && (b in p.open <==> FirstCopy(arrivals, b) == None)
      && (b !in p.open ==> FirstCopy(arrivals, b) == Some(BlockData(p.data, b)))
  {
    if arrivals == [] {
      assert FreshPiece(size).open[b] == b;
    } else {
      var n := |arrivals| - 1;
      var a := arrivals[n];
      var p := ReceiveAll(size, arrivals[..n]);
      AssemblyOfFirstCopies(size, arrivals[..n], b);
      assert arrivals == arrivals[..n] + [a];
      FirstCopyAppend(arrivals[..n], a, b);
      ExactInPiece(size, a);
      ReceiveOk(p, size, a.block, a.offset);
      ReceiveExactBlock(p, size, a, b);
    }
  }

  /** An exact block lands in its own slot and touches no other. */
  lemma ReceiveExactBlock(p: PieceState, size: nat, a: Arrival, b: nat)
    requires PieceOk(p, size) && ExactBlock(size, a) && b < BlocksIn(size)
    requires Arrives(p, a.offset, |a.block|)
    ensures var q := Receive(p, a.block, a.offset);
      |q.data| == size && BlockData(q.data, b)
        == if b == a.offset / BLOCK_SIZE && b in p.open then a.block else BlockData(p.data, b)
  {
    hide Splice;
    var c := a.offset / BLOCK_SIZE;
    ChunkEnds(size, BLOCK_SIZE, b);
    ChunkEnds(size, BLOCK_SIZE, c);
    ExactInPiece(size, a);
    var lo := b * BLOCK_SIZE;
    SpliceWindows(p.data, a.offset, a.block, lo, lo + ChunkLen(size, BLOCK_SIZE, b));
  }

  /** Two complete downloads whose blocks agree are the same bytes, however they arrived. */
  lemma OrderIsIrrelevant(size: nat, one: seq<Arrival>, two: seq<Arrival>)
    requires 1 <= size <= MAX_PIECE_SIZE
    requires forall a :: a in one || a in two ==> ExactBlock(size, a)
    requires ReceiveAll(size, one).open == []
    requires forall b :: 0 <= b < BlocksIn(size) ==> FirstCopy(one, b) == FirstCopy(two, b)
    ensures ReceiveAll(size, two).open == []
    ensures ReceiveAll(size, two).data == ReceiveAll(size, one).data
  {
    var p, q := ReceiveAll(size, one), ReceiveAll(size, two);
    forall b | 0 <= b < BlocksIn(size)
      ensures (b !in p.open <==> b !in q.open) && BlockData(p.data, b) == BlockData(q.data, b)
    {
      AssemblyOfFirstCopies(size, one, b);
      AssemblyOfFirstCopies(size, two, b);
    }
    if q.open != [] {
      SomeBlockOpen(q, size);
    }
    BlocksDetermineData(p.data, q.data);
  }

  lemma SomeBlockOpen(p: PieceState, size: nat)
    requires PieceOk(p, size) && p.open != []
    ensures exists b :: 0 <= b < BlocksIn(size) && b in p.open
  {
    assert p.open[0] in p.open;
  }

  lemma BlocksDetermineData(d: seq<byte>, e: seq<byte>)
    requires |d| == |e|
    requires forall b :: 0 <= b < BlocksIn(|d|) ==> BlockData(d, b) == BlockData(e, b)
    ensures d == e
  {
    forall x | 0 <= x < |d| ensures d[x] == e[x] {
      var b := x / BLOCK_SIZE;
      ChunksPartition(|d|, BLOCK_SIZE, x);
      assert d[x] == BlockData(d, b)[x - b * BLOCK_SIZE];
      assert e[x] == BlockData(e, b)[x - b * BLOCK_SIZE];
    }
  }

  // ----- vectors of 16-bit indices in memory -------------------------------

  /** The memory image of a vector of 16-bit values. */
  function Words(s: seq<nat>): (r: seq<byte>)
    ensures |r| == 2 * |s|
  {
    seq(2 * |s|, k requires 0 <= k < 2 * |s| => if k % 2 == 0 then s[k / 2] % 256 else s[k / 2] / 256 % 256)
  }

  /** Writing entry k writes its two bytes. */
  lemma WordsUpdate(s: seq<nat>, k: nat, v: nat)
    requires k < |s|
    ensures LeBytes(v, SIZEOF_UINT16) == [v % 256, v / 256 % 256]
    ensures Splice(Words(s), 2 * k, [v % 256, v / 256 % 256]) == Words(s[k := v])
  {
    assert LeBytes(v / 256, 1) == [v / 256 % 256] + LeBytes(v / 256 / 256, 0);
  }

  /** Reading entry k gives it back. */
  lemma WordsRead(s: seq<nat>, k: nat)
    requires k < |s| && s[k] < TWO_TO_16
    ensures LeValue(Words(s)[2 * k..2 * k + 2]) == s[k]
  {
    var w := Words(s)[2 * k..2 * k + 2];
    assert w == [s[k] % 256, s[k] / 256 % 256];
    assert w[1..] == [s[k] / 256 % 256] && w[1..][1..] == [];
    assert LeValue(w[1..]) == s[k] / 256 % 256;
  }

  /** Entry k as it is read from memory. */
  function WordAt(bytes: seq<byte>, k: nat): nat
    requires 2 * k + 2 <= |bytes|
  {
    LeValue(bytes[2 * k..2 * k + 2])
  }

  lemma SplicePrefix(s: seq<byte>, at: nat, d: seq<byte>, n: nat)
    requires at + |d| <= n <= |s|
    ensures Splice(s, at, d)[..n] == Splice(s[..n], at, d)
  {
  }

  // ----- the piece as the client keeps it ----------------------------------

  /** The block starts with that vector. */
  ghost predicate HoldsWords(pool: MemoryPool, b: nat, s: seq<nat>)
    reads pool.pool
  {
    && pool.SizesOk() && b < pool.blockCount && 2 * |s| <= pool.alignedBlockSize
    && pool.BlockBytes(b)[..2 * |s|] == Words(s)
  }

  lemma HeldWord(pool: MemoryPool, b: nat, s: seq<nat>, k: nat)
    requires HoldsWords(pool, b, s) && k < |s| && s[k] < TWO_TO_16
    ensures 2 * k + 2 <= |pool.BlockBytes(b)| && WordAt(pool.BlockBytes(b), k) == s[k]
  {
    hide MemoryPool.BlockBytes, Words;
    WordsRead(s, k);
    assert pool.BlockBytes(b)[2 * k..2 * k + 2] == pool.BlockBytes(b)[..2 * |s|][2 * k..2 * k + 2];
  }

  /** Every block but these two holds the same bytes. */
  twostate predicate KeepsOtherTwo(pool: MemoryPool, b: nat, c: nat)
    reads pool.pool
  {
    && pool.pool.Length == pool.blockCount * pool.alignedBlockSize
    && forall d: nat :: d < pool.blockCount && d != b && d != c ==> pool.BlockBytes(d) == old(pool.BlockBytes(d))
  }

  lemma PoolSizes(pool: MemoryPool)
    requires pool.Valid()
    ensures pool.pool.Length == pool.blockCount * pool.alignedBlockSize
  {
  }

  /** Writes entry k of the vector in block b; the vector in block c stays. */
  method PutWord(addr: nat, ghost b: nat, k: nat, v: nat, ghost s: seq<nat>, pool: MemoryPool,
                 ghost c: nat, ghost other: seq<nat>)
    requires pool.Valid() && pool.Live(b) && addr == pool.AddrFromIndex(b) && b != c && k < |s|
    requires HoldsWords(pool, b, s) && HoldsWords(pool, c, other)
    modifies pool.pool
    ensures pool.Valid() && pool.KeepsOthers(b)
    ensures HoldsWords(pool, b, s[k := v]) && HoldsWords(pool, c, other)
  {
    hide MemoryPool.BlockBytes, MemoryPool.Free, Words;
    WordsUpdate(s, k, v);
    SplicePrefix(pool.BlockBytes(b), 2 * k, [v % 256, v / 256 % 256], 2 * |s|);
    pool.WriteBlock(addr, b, 2 * k, LeBytes(v, SIZEOF_UINT16));
  }

  /** Indices of the pool blocks that hold a piece's vectors. */
  datatype Storage = Storage(data: nat, remaining: nat, position: nat)

  ghost predicate PoolsApart(dataPool: MemoryPool, utilPool: MemoryPool)
    reads dataPool, dataPool.pool, utilPool, utilPool.pool
  {
    dataPool.Valid() && utilPool.Valid() && dataPool != utilPool && dataPool.pool != utilPool.pool
  }

  /** Enough free blocks, each large enough, for one more piece. */
  ghost predicate CanHold(size: nat, dataPool: MemoryPool, utilPool: MemoryPool)
    reads dataPool, dataPool.pool, utilPool, utilPool.pool
  {
    && PoolsApart(dataPool, utilPool)
    && size <= dataPool.alignedBlockSize && dataPool.freeBlocks >= 1
    && BlocksIn(size) * SIZEOF_UINT16 <= utilPool.alignedBlockSize && utilPool.freeBlocks >= 2
  }

  /** Exactly the piece's three blocks came back to the free sets. */
  ghost predicate Returned(st: Storage, dataBefore: set<nat>, data: set<nat>, utilBefore: set<nat>, util: set<nat>) {
    && data == dataBefore + {st.data}
    && util == utilBefore + {st.remaining, st.position}
  }

  /** Exactly the piece's three blocks left the free sets. */
  ghost predicate Held(st: Storage, dataBefore: set<nat>, data: set<nat>, utilBefore: set<nat>, util: set<nat>) {
    && st.data in dataBefore && data == dataBefore - {st.data}
    && st.remaining != st.position && {st.remaining, st.position} <= utilBefore
    && util == utilBefore - {st.remaining, st.position}
  }

  /** The unreceived blocks are the first blocksLeft entries of an index vector;
      the second vector is its inverse, so a block is found in constant time. */
  class Piece {
    const pieceSize: nat
    const blocksCnt: nat
    const timeout: int
    /** Where the allocator put the data vector and the two index vectors. */
    const dataPtr: Option<nat>
    const remainingPtr: Option<nat>
    const positionPtr: Option<nat>
    ghost const storage: Storage
    var blocksLeft: nat
    var unrequestedBlocks: nat
    /** The first pieceSize bytes of the data vector's pool block. */
    ghost var pieceData: seq<byte>
    var blockRequestTime: seq<int>
    var remainingBlocks: seq<nat>
    var blockPosInRem: seq<nat>

    ghost predicate Valid()
      reads this
    {
      && blocksCnt == BlocksIn(pieceSize)
      && blocksLeft <= blocksCnt
      && Inverses(remainingBlocks, blockPosInRem, blocksCnt)
      && PieceOk(State(), pieceSize)
      && unrequestedBlocks == Unrequested(blockRequestTime)
    }

    /** The pool block really holds the piece's data. */
    ghost predicate Backed(dataPool: MemoryPool)
      reads this`pieceData, dataPool.pool
    {
      && dataPool.SizesOk() && storage.data < dataPool.blockCount && pieceSize <= dataPool.alignedBlockSize
      && dataPool.BlockBytes(storage.data)[..pieceSize] == pieceData
    }

    /** The two other pool blocks really hold the mutually inverse index vectors. */
    ghost predicate Indexed(utilPool: MemoryPool)
      reads this`remainingBlocks, this`blockPosInRem, utilPool.pool
    {
      && |remainingBlocks| == |blockPosInRem| == blocksCnt
      && HoldsWords(utilPool, storage.remaining, remainingBlocks)
      && HoldsWords(utilPool, storage.position, blockPosInRem)
    }

    /** What the two blocks hold, read from memory, are mutually inverse vectors. */
    lemma MemoryIsInverse(utilPool: MemoryPool, k: nat)
      requires Valid() && Indexed(utilPool) && k < blocksCnt
      ensures var rem, pos := utilPool.BlockBytes(storage.remaining), utilPool.BlockBytes(storage.position);
        && WordAt(rem, k) == remainingBlocks[k] < blocksCnt && WordAt(pos, WordAt(rem, k)) == k
        && WordAt(pos, k) == blockPosInRem[k] < blocksCnt && WordAt(rem, WordAt(pos, k)) == k
    {
      hide MemoryPool.BlockBytes, Words, Unrequested, NoDup;
      FreshPieceOk(pieceSize);
      HeldWord(utilPool, storage.remaining, remainingBlocks, k);
      HeldWord(utilPool, storage.position, blockPosInRem, k);
      HeldWord(utilPool, storage.position, blockPosInRem, remainingBlocks[k]);
      HeldWord(utilPool, storage.remaining, remainingBlocks, blockPosInRem[k]);
    }

    ghost function State(): PieceState
      requires blocksLeft <= |remainingBlocks|
      reads this
    {
      PieceState(pieceSize, pieceData, blockRequestTime, remainingBlocks[..blocksLeft])
    }

    constructor (size: nat, dataPool: MemoryPool, utilPool: MemoryPool, timeout: int)
      requires 1 <= size <= MAX_PIECE_SIZE && CanHold(size, dataPool, utilPool)
      modifies dataPool, dataPool.pool, utilPool, utilPool.pool
      ensures Valid() && State() == FreshPiece(size) && pieceSize == size && this.timeout == timeout
      ensures PointsInto(dataPool, utilPool)
      ensures dataPool.Valid() && utilPool.Valid()
      ensures dataPool.freeBlocks == old(dataPool.freeBlocks) - 1
      ensures utilPool.freeBlocks == old(utilPool.freeBlocks) - 2
      ensures Held(storage, old(dataPool.Free()), dataPool.Free(), old(utilPool.Free()), utilPool.Free())
      ensures Backed(dataPool) && dataPool.KeepsLive()
      ensures Indexed(utilPool) && utilPool.KeepsLive()
    {
      hide MemoryPool.Valid, MemoryPool.Free, MemoryPool.BlockBytes, Splice, HoldsWords;
      var n := CeilDiv(size, BLOCK_SIZE);
      var d, r, q, st := AllocateStorage(size, n, dataPool, utilPool);
      dataPtr, remainingPtr, positionPtr, storage := d, r, q, st;
      pieceSize := size;
      blocksCnt := n;
      blocksLeft := n;
      unrequestedBlocks := n;
      this.timeout := timeout;
      pieceData := seq(size, _ => 0);
      blockRequestTime := seq(n, _ => TIME_MIN);
      var rem, pos := FillIndices(n, r.value, st.remaining, q.value, st.position, utilPool);
      remainingBlocks := rem;
      blockPosInRem := pos;
      new;
      FreshPieceOk(size);
      UnrequestedZero(blockRequestTime);
      assert remainingBlocks[..blocksLeft] == Iota(n);
    }

    /** The loop that fills both vectors with the indices of the blocks. */
    static method FillIndices(n: nat, r: nat, ghost b: nat, q: nat, ghost c: nat, utilPool: MemoryPool)
      returns (rem: seq<nat>, pos: seq<nat>)
      requires utilPool.Valid() && utilPool.Live(b) && utilPool.Live(c) && b != c && n <= TWO_TO_16
      requires r == utilPool.AddrFromIndex(b) && q == utilPool.AddrFromIndex(c)
      requires HoldsWords(utilPool, b, seq(n, _ => 0)) && HoldsWords(utilPool, c, seq(n, _ => 0))
      modifies utilPool.pool
      ensures utilPool.Valid() && rem == pos == Iota(n)
      ensures HoldsWords(utilPool, b, rem) && HoldsWords(utilPool, c, pos) && KeepsOtherTwo(utilPool, b, c)
    {
      hide MemoryPool.Valid, MemoryPool.Free, MemoryPool.BlockBytes, HoldsWords;
      PoolSizes(utilPool);
      rem, pos := seq(n, _ => 0), seq(n, _ => 0);
      for i := 0 to n
        invariant |rem| == |pos| == n && utilPool.Valid()
        invariant forall k :: 0 <= k < i ==> rem[k] == pos[k] == k
        invariant HoldsWords(utilPool, b, rem) && HoldsWords(utilPool, c, pos) && KeepsOtherTwo(utilPool, b, c)
      {
        PutWord(r, b, i, i, rem, utilPool, c, pos);
        rem := rem[i := i];
        PutWord(q, c, i, i, pos, utilPool, b, rem);
        pos := pos[i := i];
      }
    }

    /** The three allocations a piece needs; none of them fails. */
    static method AllocateStorage(size: nat, n: nat, dataPool: MemoryPool, utilPool: MemoryPool)
      returns (d: Option<nat>, r: Option<nat>, q: Option<nat>, ghost st: Storage)
      requires n == BlocksIn(size) && CanHold(size, dataPool, utilPool)
      modifies dataPool, dataPool.pool, utilPool, utilPool.pool
      ensures d == Some(dataPool.AddrFromIndex(st.data))
      ensures r == Some(utilPool.AddrFromIndex(st.remaining)) && q == Some(utilPool.AddrFromIndex(st.position))
      ensures dataPool.Valid() && utilPool.Valid()
      ensures dataPool.freeBlocks == old(dataPool.freeBlocks) - 1
      ensures utilPool.freeBlocks == old(utilPool.freeBlocks) - 2
      ensures Held(st, old(dataPool.Free()), dataPool.Free(), old(utilPool.Free()), utilPool.Free())
      ensures dataPool.KeepsLive() && st.data < dataPool.blockCount && dataPool.SizesOk()
      ensures dataPool.BlockBytes(st.data)[..size] == seq(size, _ => 0)
      ensures utilPool.Live(st.remaining) && utilPool.Live(st.position) && utilPool.KeepsLive()
      ensures HoldsWords(utilPool, st.remaining, seq(n, _ => 0)) && HoldsWords(utilPool, st.position, seq(n, _ => 0))
    {
      hide MemoryPool.Valid, MemoryPool.Free, MemoryPool.BlockBytes, Words;
      ghost var b0, b1, b2;
      d, b0 := dataPool.Allocate(size);
      r, b1 := utilPool.Allocate(n * SIZEOF_UINT16);
      q, b2 := utilPool.Allocate(n * SIZEOF_UINT16);
      st := Storage(b0, b1, b2);
      ZeroFill(size, d, b0, dataPool);
      ZeroFill(n * SIZEOF_UINT16, r, b1, utilPool);
      ZeroFill(n * SIZEOF_UINT16, q, b2, utilPool);
      WordsOfZeros(n);
    }

    static lemma WordsOfZeros(n: nat)
      ensures Words(seq(n, _ => 0)) == seq(n * SIZEOF_UINT16, _ => 0)
    {
    }

    /** A vector starts as zeros. */
    static method ZeroFill(size: nat, d: Option<nat>, ghost b: nat, dataPool: MemoryPool)
      requires dataPool.Valid() && dataPool.Live(b)
      requires d == Some(dataPool.AddrFromIndex(b)) && size <= dataPool.alignedBlockSize
      modifies dataPool.pool
      ensures dataPool.Valid() && dataPool.KeepsOthers(b) && dataPool.SizesOk()
      ensures dataPool.BlockBytes(b)[..size] == seq(size, _ => 0)
    {
      hide MemoryPool.Free, MemoryPool.KeepsOthers, MemoryPool.BlockBytes;
      dataPool.WriteBlock(d.value, b, 0, seq(size, _ => 0));
      assert dataPool.BlockBytes(b)[..size] == seq(size, _ => 0);
    }

    ghost predicate PointsInto(dataPool: MemoryPool, utilPool: MemoryPool) {
      && dataPtr == Some(dataPool.AddrFromIndex(storage.data))
      && remainingPtr == Some(utilPool.AddrFromIndex(storage.remaining))
      && positionPtr == Some(utilPool.AddrFromIndex(storage.position))
    }

    /** The destructor: the vectors are freed in reverse order of declaration. */
    method Release(dataPool: MemoryPool, utilPool: MemoryPool)
      requires PoolsApart(dataPool, utilPool) && PointsInto(dataPool, utilPool)
      requires dataPool.Live(storage.data)
      requires utilPool.Live(storage.remaining) && utilPool.Live(storage.position)
      requires storage.remaining != storage.position
      modifies dataPool, dataPool.pool, utilPool, utilPool.pool
      ensures dataPool.Valid() && utilPool.Valid()
      ensures dataPool.freeBlocks == old(dataPool.freeBlocks) + 1
      ensures utilPool.freeBlocks == old(utilPool.freeBlocks) + 2
      ensures Returned(storage, old(dataPool.Free()), dataPool.Free(), old(utilPool.Free()), utilPool.Free())
      ensures dataPool.KeepsLive() && utilPool.KeepsLive()
    {
      hide MemoryPool.Valid, MemoryPool.Free, MemoryPool.BlockBytes;
      utilPool.Deallocate(positionPtr, storage.position);
      utilPool.Deallocate(remainingPtr, storage.remaining);
      dataPool.Deallocate(dataPtr, storage.data);
    }

    /** A block is received when its position lies in the tail of the index vector. */
    predicate IsBlockReceived(b: nat)
      requires Valid() && b < blocksCnt
      reads this
      ensures IsBlockReceived(b) <==> b !in State().open
    {
      OpenIffInPrefix(b);
      blockPosInRem[b] >= blocksLeft
    }

    lemma OpenIffInPrefix(b: nat)
      requires Valid() && b < blocksCnt
      ensures b in State().open <==> blockPosInRem[b] < blocksLeft
      ensures blockPosInRem[b] < blocksLeft ==> State().open[blockPosInRem[b]] == b
    {
      if b in State().open {
        var k := IndexOf(State().open, b);
        assert remainingBlocks[k] == b;
      }
    }

    predicate IsComplete()
      requires Valid()
      reads this
      ensures IsComplete() <==> State().open == []
    {
      blocksLeft == 0
    }

    /** Copies the block into the pool block, unless it is there already. */
    method ReceiveBlock(block: seq<byte>, offset: nat, dataPool: MemoryPool, utilPool: MemoryPool)
      requires Valid() && Arrives(State(), offset, |block|)
      requires PoolsApart(dataPool, utilPool) && PointsInto(dataPool, utilPool)
      requires dataPool.Live(storage.data) && Backed(dataPool)
      requires utilPool.Live(storage.remaining) && utilPool.Live(storage.position)
      requires storage.remaining != storage.position && Indexed(utilPool)
      modifies this, dataPool.pool, utilPool.pool
      ensures Valid() && State() == Receive(old(State()), block, offset)
      ensures dataPool.Valid() && Backed(dataPool) && dataPool.KeepsOthers(storage.data)
      ensures utilPool.Valid() && Indexed(utilPool)
      ensures KeepsOtherTwo(utilPool, storage.remaining, storage.position)
    {
      hide PieceOk, Inverses, State, Receive, MemoryPool.Valid, HoldsWords;
      hide MemoryPool.BlockBytes, MemoryPool.Free, Unrequested, BlocksIn;
      var b := offset / BLOCK_SIZE;
      ArrivalFacts(block, offset);
      if IsBlockReceived(b) {
        PoolSizes(utilPool);
        return;
      }
      CopyIn(block, offset, dataPool);
      SwapWords(b, utilPool);
      MarkReceived(b, block, offset);
    }

    /** What the two swaps write: the entry of block b and the last one among the missing, and
        their positions. */
    method SwapWords(b: nat, utilPool: MemoryPool)
      requires Valid() && b < blocksCnt && blockPosInRem[b] < blocksLeft
      requires utilPool.Valid() && utilPool.Live(storage.remaining) && utilPool.Live(storage.position)
      requires remainingPtr == Some(utilPool.AddrFromIndex(storage.remaining))
      requires positionPtr == Some(utilPool.AddrFromIndex(storage.position))
      requires storage.remaining != storage.position && Indexed(utilPool)
      modifies utilPool.pool
      ensures utilPool.Valid() && KeepsOtherTwo(utilPool, storage.remaining, storage.position)
      ensures HoldsWords(utilPool, storage.remaining, SwappedRemaining(b))
      ensures HoldsWords(utilPool, storage.position, SwappedPositions(b))
    {
      hide MemoryPool.Valid, MemoryPool.BlockBytes, MemoryPool.Free, HoldsWords, PieceOk, Unrequested;
      var last := blocksLeft - 1;
      var i, swapped := blockPosInRem[b], remainingBlocks[last];
      ghost var rem, pos := remainingBlocks, blockPosInRem;
      ghost var r, q := storage.remaining, storage.position;
      PutWord(remainingPtr.value, r, i, swapped, rem, utilPool, q, pos);
      PutWord(remainingPtr.value, r, last, b, rem[i := swapped], utilPool, q, pos);
      PutWord(positionPtr.value, q, b, last, pos, utilPool, r, SwappedRemaining(b));
      PutWord(positionPtr.value, q, swapped, i, pos[b := last], utilPool, r, SwappedRemaining(b));
    }

    /** The vectors after block b has changed places with the last of the missing ones. */
    function SwappedRemaining(b: nat): seq<nat>
      requires Valid() && b < blocksCnt && blockPosInRem[b] < blocksLeft
      reads this
    {
      remainingBlocks[blockPosInRem[b] := remainingBlocks[blocksLeft - 1]][blocksLeft - 1 := b]
    }

    function SwappedPositions(b: nat): seq<nat>
      requires Valid() && b < blocksCnt && blockPosInRem[b] < blocksLeft
      reads this
    {
      blockPosInRem[b := blocksLeft - 1][remainingBlocks[blocksLeft - 1] := blockPosInRem[b]]
    }

    lemma ArrivalFacts(block: seq<byte>, offset: nat)
      requires Valid() && Arrives(State(), offset, |block|)
      ensures offset / BLOCK_SIZE < blocksCnt && blocksLeft <= |remainingBlocks|
      ensures offset / BLOCK_SIZE in State().open ==> InPiece(pieceSize, offset, |block|)
      ensures offset / BLOCK_SIZE !in State().open ==> Receive(State(), block, offset) == State()
    {
      BlockOfOffset(pieceSize, offset);
    }

    method CopyIn(block: seq<byte>, offset: nat, dataPool: MemoryPool)
      requires Valid() && InPiece(pieceSize, offset, |block|)
      requires dataPool.Valid() && dataPool.Live(storage.data)
      requires dataPtr == Some(dataPool.AddrFromIndex(storage.data)) && Backed(dataPool)
      modifies dataPool.pool
      ensures dataPool.Valid() && dataPool.SizesOk() && dataPool.KeepsOthers(storage.data)
      ensures storage.data < dataPool.blockCount
      ensures offset + |block| <= |pieceData| == pieceSize <= dataPool.alignedBlockSize
      ensures dataPool.BlockBytes(storage.data)[..pieceSize] == Splice(pieceData, offset, block)
    {
      hide MemoryPool.BlockBytes, MemoryPool.Free, MemoryPool.KeepsOthers, Inverses;
      dataPool.WriteBlock(dataPtr.value, storage.data, offset, block);
    }

    /** Moves the block to the end of the missing ones. */
    method MarkReceived(b: nat, block: seq<byte>, offset: nat)
      requires Valid() && InPiece(pieceSize, offset, |block|) && b == offset / BLOCK_SIZE && b in State().open
      modifies this
      ensures Valid() && State() == Receive(old(State()), block, offset)
      ensures pieceData == Splice(old(pieceData), offset, block)
      ensures blocksCnt == |remainingBlocks| == |blockPosInRem|
      ensures old(blockPosInRem[b]) < old(blocksLeft)
      ensures remainingBlocks == old(SwappedRemaining(b)) && blockPosInRem == old(SwappedPositions(b))
    {
      BlockOfOffset(pieceSize, offset);
      OpenIffInPrefix(b);
      ReceiveOk(State(), pieceSize, block, offset);
      var last := blocksLeft - 1;
      var i, swapped := blockPosInRem[b], remainingBlocks[last];
      SwapKeepsInverses(remainingBlocks, blockPosInRem, blocksCnt, i, last);
      SwapOut(remainingBlocks, blocksLeft, i);
      pieceData := Splice(pieceData, offset, block);
      remainingBlocks := remainingBlocks[i := swapped][last := b];
      blockPosInRem := blockPosInRem[b := last][swapped := i];
      blocksLeft := last;
    }

    method RequestNextBlock(clock: nat -> int, stamp: int) returns (r: Option<(nat, nat)>)
      requires Valid() && stamp > TIME_MIN
      modifies this
      ensures Valid()
      ensures match NextBlock(old(State().open), old(State().requestTime), clock, timeout)
        case None => r == None && State() == old(State())
        case Some(b) =>
          && b < BlocksIn(pieceSize)
          && r == Some((b * BLOCK_SIZE, ChunkLen(pieceSize, BLOCK_SIZE, b)))
          && State() == MarkRequested(old(State()), b, stamp)
      ensures pieceData == old(pieceData)
      ensures remainingBlocks == old(remainingBlocks) && blockPosInRem == old(blockPosInRem)
    {
      for k := 0 to blocksLeft
        invariant Valid() && State() == old(State())
        invariant remainingBlocks == old(remainingBlocks) && blockPosInRem == old(blockPosInRem)
        invariant forall j :: 0 <= j < k ==>
          !Requestable(State().requestTime, State().open[j], clock(State().open[j]), timeout)
      {
        var b := remainingBlocks[k];
        assert State().open[k] == b;
        OpenIffInPrefix(b);
        var timedOut := clock(b) - timeout > blockRequestTime[b];
        var requested := blockRequestTime[b] != TIME_MIN;
        if IsBlockReceived(b) || (requested && !timedOut) {
          continue;
        }
        NextBlockAt(State().open, State().requestTime, clock, timeout, k);
        r := Grant(b, requested, stamp);
        return;
      }
      return None;
    }

    /** Stamps the block with the time and names it with its exact size. */
    method Grant(b: nat, requested: bool, now: int) returns (r: Option<(nat, nat)>)
      requires Valid() && b < blocksCnt && now > TIME_MIN && requested == (blockRequestTime[b] != TIME_MIN)
      modifies this
      ensures Valid() && b < BlocksIn(pieceSize) && b < |old(State()).requestTime|
      ensures r == Some((b * BLOCK_SIZE, ChunkLen(pieceSize, BLOCK_SIZE, b)))
      ensures State() == MarkRequested(old(State()), b, now) && pieceData == old(pieceData)
      ensures remainingBlocks == old(remainingBlocks) && blockPosInRem == old(blockPosInRem)
    {
      hide Inverses, NoDup;
      UnrequestedUpdate(blockRequestTime, b, now);
      if !requested {
        unrequestedBlocks := unrequestedBlocks - 1;
      }
      blockRequestTime := blockRequestTime[b := now];
      var size := if b == blocksCnt - 1 then 1 + (pieceSize - 1) % BLOCK_SIZE else BLOCK_SIZE;
      r := Some((b * BLOCK_SIZE, size));
    }
  }

  /** The two index vectors are inverse permutations of 0..n-1. */
  ghost predicate Inverses(rem: seq<nat>, pos: seq<nat>, n: nat) {
    && |rem| == |pos| == n
    && (forall k :: 0 <= k < n ==> rem[k] < n && pos[rem[k]] == k)
    && (forall b :: 0 <= b < n ==> pos[b] < n && rem[pos[b]] == b)
  }

  /** Swapping two entries, and their positions, keeps the vectors inverse. */
  lemma SwapKeepsInverses(rem: seq<nat>, pos: seq<nat>, n: nat, i: nat, j: nat)
    requires Inverses(rem, pos, n) && i < n && j < n
    ensures Inverses(rem[i := rem[j]][j := rem[i]], pos[rem[i] := j][rem[j] := i], n)
  {
  }

  /** Shrinking the open prefix after the swap removes exactly block b from it. */
  lemma SwapOut(rem: seq<nat>, left: nat, i: nat)
    requires i < left <= |rem| && NoDup(rem[..left])
    ensures var last := left - 1;
      && rem[i] in rem[..left]
      && rem[i := rem[last]][last := rem[i]][..last] == SwapRemove(rem[..left], IndexOf(rem[..left], rem[i]))
  {
    assert rem[..left][i] == rem[i];
    assert IndexOf(rem[..left], rem[i]) == i;
  }
}
