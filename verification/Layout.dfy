/** How a torrent is cut: into pieces, and each piece into blocks.  Both cuts
    use the same formula, so everything is stated once for a total length and
    a chunk size. */
module Layout {
  import opened Prelude

  const BLOCK_SIZE: nat := 16384
  const MAX_MEMPOOL_SIZE: nat := 0x2000_0000
  const SHA1_SIZE: nat := 20
  /** 65536 blocks of BLOCK_SIZE bytes: the block indices are 16 bits wide. */
  const MAX_PIECE_SIZE: nat := 0x4000_0000

  function ChunkCount(total: nat, chunk: nat): nat
    requires chunk > 0
  {
    CeilDiv(total, chunk)
  }

  function ChunkLen(total: nat, chunk: nat, i: nat): nat
    requires chunk > 0 && i < ChunkCount(total, chunk)
  {
    if i == ChunkCount(total, chunk) - 1 then 1 + (total - 1) % chunk else chunk
  }

  /** A chunk ends where the next one starts, and the last one ends with the total. */
  lemma ChunkEnds(total: nat, chunk: nat, i: nat)
    requires chunk > 0 && i < ChunkCount(total, chunk)
    ensures total >= 1 && 1 <= ChunkLen(total, chunk, i) <= chunk
    ensures i * chunk + ChunkLen(total, chunk, i)
         == if i == ChunkCount(total, chunk) - 1 then total else (i + 1) * chunk
    ensures i * chunk + ChunkLen(total, chunk, i) <= total
  {
    var n := ChunkCount(total, chunk);
    CeilDivBounds(total, chunk);
    assert n * chunk == (n - 1) * chunk + chunk;
    LastChunk(total, chunk, n);
    assert (i + 1) * chunk == i * chunk + chunk;
    if i < n - 1 {
      MulMono(i, n - 1, chunk);
    }
  }

  /** The part of ChunkEnds that bounds a chunk. */
  lemma ChunkFits(total: nat, chunk: nat, i: nat)
    requires chunk > 0 && i < ChunkCount(total, chunk)
    ensures 1 <= ChunkLen(total, chunk, i) <= chunk
    ensures i * chunk + ChunkLen(total, chunk, i) <= total
  {
    ChunkEnds(total, chunk, i);
  }

  lemma LastChunk(total: nat, chunk: nat, n: nat)
    requires n >= 1 && 1 <= total && (n - 1) * chunk < total <= (n - 1) * chunk + chunk
    ensures (total - 1) % chunk == total - 1 - (n - 1) * chunk
  {
    DivUnique(total - 1, n - 1, total - 1 - (n - 1) * chunk, chunk);
  }

  /** The chunk ranges partition [0, total): byte x lies in chunk x / chunk, and in no other. */
  lemma ChunksPartition(total: nat, chunk: nat, x: nat)
    requires chunk > 0 && x < total
    ensures x / chunk < ChunkCount(total, chunk)
    ensures forall i :: 0 <= i < ChunkCount(total, chunk) ==>
              (i * chunk <= x < i * chunk + ChunkLen(total, chunk, i) <==> i == x / chunk)
  {
    var q := x / chunk;
    var r := x % chunk;
    assert x == q * chunk + r;
    ChunkOf(total, chunk, x, q, r);
  }

  lemma ChunkOf(total: nat, chunk: nat, x: nat, q: nat, r: nat)
    requires chunk > 0 && x < total && r < chunk && x == q * chunk + r
    ensures q < ChunkCount(total, chunk)
    ensures forall i :: 0 <= i < ChunkCount(total, chunk) ==>
              (i * chunk <= x < i * chunk + ChunkLen(total, chunk, i) <==> i == q)
  {
    var n := ChunkCount(total, chunk);
    CeilDivBounds(total, chunk);
    if n < q { MulMono(n, q, chunk); }
    forall i | 0 <= i < n
      ensures i * chunk <= x < i * chunk + ChunkLen(total, chunk, i) <==> i == q
    {
      ChunkEnds(total, chunk, i);
      if i < q {
        MulMono(i, q, chunk);
      } else if q < i {
        MulMono(q, i, chunk);
      } else {
        assert (i + 1) * chunk == i * chunk + chunk;
      }
    }
  }

  /** The total length of the first n chunks. */
  function SumOfChunks(total: nat, chunk: nat, n: nat): nat
    requires chunk > 0 && n <= ChunkCount(total, chunk)
  {
    if n == 0 then 0 else SumOfChunks(total, chunk, n - 1) + ChunkLen(total, chunk, n - 1)
  }

  /** The chunk lengths add up to the total. */
  lemma {:induction false} ChunksSum(total: nat, chunk: nat, n: nat)
    requires chunk > 0 && n <= ChunkCount(total, chunk)
    ensures SumOfChunks(total, chunk, n) == if n == ChunkCount(total, chunk) then total else n * chunk
  {
    if n > 0 {
      ChunksSum(total, chunk, n - 1);
      ChunkEnds(total, chunk, n - 1);
    } else {
      CeilDivBounds(total, chunk);
    }
  }

  /** Byte x of the torrent is one of the bytes of block b of piece p. */
  predicate InBlock(torrentSize: nat, pieceSize: nat, p: nat, b: nat, x: nat)
    requires pieceSize > 0 && p < ChunkCount(torrentSize, pieceSize)
    requires b < ChunkCount(ChunkLen(torrentSize, pieceSize, p), BLOCK_SIZE)
  {
    var len := ChunkLen(torrentSize, pieceSize, p);
    var lo := p * pieceSize + b * BLOCK_SIZE;
    lo <= x < lo + ChunkLen(len, BLOCK_SIZE, b)
  }

  /** Every byte of the torrent lies in exactly one block of exactly one piece. */
  lemma EveryByteInOneBlock(torrentSize: nat, pieceSize: nat, x: nat)
    requires pieceSize > 0 && x < torrentSize
    ensures var p := x / pieceSize;
            && p < ChunkCount(torrentSize, pieceSize)
            && x % pieceSize / BLOCK_SIZE < ChunkCount(ChunkLen(torrentSize, pieceSize, p), BLOCK_SIZE)
    ensures forall p, b | 0 <= p < ChunkCount(torrentSize, pieceSize)
                       && 0 <= b < ChunkCount(ChunkLen(torrentSize, pieceSize, p), BLOCK_SIZE) ::
              InBlock(torrentSize, pieceSize, p, b, x)
              <==> p == x / pieceSize && b == x % pieceSize / BLOCK_SIZE
  {
    var q, y := x / pieceSize, x % pieceSize;
    assert x == q * pieceSize + y;
    ChunkOf(torrentSize, pieceSize, x, q, y);
    ChunkEnds(torrentSize, pieceSize, q);
    ChunksPartition(ChunkLen(torrentSize, pieceSize, q), BLOCK_SIZE, y);
    forall p, b | 0 <= p < ChunkCount(torrentSize, pieceSize)
               && 0 <= b < ChunkCount(ChunkLen(torrentSize, pieceSize, p), BLOCK_SIZE)
      ensures InBlock(torrentSize, pieceSize, p, b, x) <==> p == q && b == y / BLOCK_SIZE
    {
      BlockOf(torrentSize, pieceSize, x, q, y, p, b);
    }
  }

  lemma BlockOf(torrentSize: nat, pieceSize: nat, x: nat, q: nat, y: nat, p: nat, b: nat)
    requires pieceSize > 0 && x < torrentSize && y < pieceSize && x == q * pieceSize + y
    requires p < ChunkCount(torrentSize, pieceSize)
    requires b < ChunkCount(ChunkLen(torrentSize, pieceSize, p), BLOCK_SIZE)
    ensures InBlock(torrentSize, pieceSize, p, b, x) <==> p == q && b == y / BLOCK_SIZE
  {
    var len := ChunkLen(torrentSize, pieceSize, p);
    ChunkOf(torrentSize, pieceSize, x, q, y);
    ChunkEnds(len, BLOCK_SIZE, b);
    if p == q {
      assert y < len;
      ChunksPartition(len, BLOCK_SIZE, y);
    }
  }
}
