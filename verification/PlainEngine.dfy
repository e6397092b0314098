/** What the piece manager's operations do, with every abbreviation of the engine written out:
    the numbers are the source's own, and a state is looked at through its fields alone. */
module PlainEngine {
  import opened Prelude
  import opened Layout
  import opened Pieces
  import opened Engine
  import opened Download
  import opened Endgame
  import opened EndgameEntry
  import Selection

  /** How long piece i is: all but the last are of the full size. */
  function Length(cfg: Config, i: nat): int {
    if (i + 1) * cfg.pieceSize <= cfg.torrentSize then cfg.pieceSize else cfg.torrentSize - i * cfg.pieceSize
  }

  /** The data's digest is the twenty bytes recorded for piece i. */
  ghost predicate Passes(cfg: Config, data: seq<byte>, i: nat) {
    && |cfg.digest(data)| == 20 && 20 * i + 20 <= |cfg.hashes|
    && forall k :: 0 <= k < 20 ==> cfg.digest(data)[k] == cfg.hashes[20 * i + k]
  }

  /** The bytes d with those of block from `at` on. */
  ghost predicate Overwritten(d': seq<byte>, d: seq<byte>, block: seq<byte>, at: int) {
    && |d'| == |d|
    && forall x :: 0 <= x < |d| ==> d'[x] == if at <= x < at + |block| then block[x - at] else d[x]
  }

  lemma LengthIs(cfg: Config, i: nat)
    requires cfg.Ok()
    ensures i < cfg.PiecesCnt() <==> i * cfg.pieceSize < cfg.torrentSize
    ensures i < cfg.PiecesCnt() ==> cfg.PieceLen(i) == Length(cfg, i)
  {
    CeilDivBounds(cfg.torrentSize, cfg.pieceSize);
    var n := cfg.PiecesCnt();
    if i < n {
      ChunkEnds(cfg.torrentSize, cfg.pieceSize, i);
      assert (i + 1) * cfg.pieceSize == i * cfg.pieceSize + cfg.pieceSize;
    } else {
      MulLe(n, i, cfg.pieceSize);
    }
  }

  lemma MulLe(a: nat, b: nat, c: nat)
    requires a <= b
    ensures a * c <= b * c
  {
  }

  lemma PassesIs(cfg: Config, data: seq<byte>, i: nat)
    requires cfg.Ok() && i < cfg.PiecesCnt()
    ensures Passes(cfg, data, i) <==> cfg.Verified(data, i)
  {
    var d, h := cfg.digest(data), cfg.RefHash(i);
    assert |h| == 20;
    forall k | 0 <= k < 20 ensures h[k] == cfg.hashes[20 * i + k] {
    }
  }

  // ----- a block arrives ---------------------------------------------------

  /** Which arrivals can be handled: all those of pieces that are not in progress, and of a piece
      that is, those that start inside it and, if the block is missing, end inside it. */
  lemma ArrivalPossibleIff(cfg: Config, s: State, piece: nat, block: seq<byte>, offset: nat)
    requires cfg.Ok() && Inv(cfg, s)
    ensures (exists s' :: Step(cfg, s, BlockArrived(piece, block, offset), s')) <==>
      (piece in s.requested ==>
        && offset < Length(cfg, piece)
        && (offset / 16384 in s.requested[piece].open ==> offset + |block| <= Length(cfg, piece)))
  {
    hide Step, InTorrent, IsPermutation, CeilDiv, ChunkLen, AcceptBlock, Length;
    if piece in s.requested {
      RequestedPiece(cfg, s, piece);
      LengthIs(cfg, piece);
    }
    if piece in s.requested ==> Arrives(s.requested[piece], offset, |block|) {
      ArrivalIsAStep(cfg, s, piece, block, offset, AcceptBlock(cfg, s, piece, block, offset));
    }
    if s' :| Step(cfg, s, BlockArrived(piece, block, offset), s') {
      ArrivalArrives(cfg, s, piece, block, offset, s');
    }
  }

  lemma ArrivalIsAStep(cfg: Config, s: State, piece: nat, block: seq<byte>, offset: nat, s': State)
    requires cfg.Ok() && Inv(cfg, s) && (piece in s.requested ==> Arrives(s.requested[piece], offset, |block|))
    requires s' == AcceptBlock(cfg, s, piece, block, offset)
    ensures Step(cfg, s, BlockArrived(piece, block, offset), s')
  {
  }

  lemma ArrivalArrives(cfg: Config, s: State, piece: nat, block: seq<byte>, offset: nat, s': State)
    requires cfg.Ok() && Inv(cfg, s) && Step(cfg, s, BlockArrived(piece, block, offset), s')
    ensures piece in s.requested ==> Arrives(s.requested[piece], offset, |block|)
  {
  }

  /** Of a piece that is not in progress, or of a block that is there already: nothing changes. */
  lemma IgnoredArrival(cfg: Config, s: State, piece: nat, block: seq<byte>, offset: nat, s': State)
    requires cfg.Ok() && Inv(cfg, s) && Step(cfg, s, BlockArrived(piece, block, offset), s')
    requires piece !in s.requested || offset / 16384 !in s.requested[piece].open
    ensures s' == s
  {
    hide InTorrent, IsPermutation, CeilDiv, ChunkLen, FinishPiece;
    if piece in s.requested {
      RequestedPiece(cfg, s, piece);
      assert s.requested[piece := s.requested[piece]] == s.requested;
    }
  }

  /** Of a block that is missing beside others: its bytes are copied and it is no longer missing. */
  lemma PartialArrival(cfg: Config, s: State, piece: nat, block: seq<byte>, offset: nat, s': State, other: nat)
    requires cfg.Ok() && Inv(cfg, s) && Step(cfg, s, BlockArrived(piece, block, offset), s') && piece in s.requested
    requires offset / 16384 in s.requested[piece].open
    requires other in s.requested[piece].open && other != offset / 16384
    ensures s'.requested.Keys == s.requested.Keys && s' == s.(requested := s'.requested)
    ensures forall q :: q in s.requested && q != piece ==> s'.requested[q] == s.requested[q]
    ensures var p, p' := s.requested[piece], s'.requested[piece];
      && p' == p.(data := p'.data, open := p'.open) && Overwritten(p'.data, p.data, block, offset)
      && forall c :: c in p'.open <==> c in p.open && c != offset / 16384
  {
    hide InTorrent, IsPermutation, CeilDiv, ChunkLen, FinishPiece, SwapRemove;
    RequestedPiece(cfg, s, piece);
    ReceiveOk(s.requested[piece], cfg.PieceLen(piece), block, offset);
    assert other in Receive(s.requested[piece], block, offset).open;
  }

  /** Of the last missing block: the piece is completed if and only if the digest of its data is
      the recorded one; then, and only then, its bytes are written at its 32-bit offset.  In
      either case it is no longer in progress. */
  lemma LastArrival(cfg: Config, s: State, piece: nat, block: seq<byte>, offset: nat, s': State)
    returns (data: seq<byte>)
    requires cfg.Ok() && Inv(cfg, s) && Step(cfg, s, BlockArrived(piece, block, offset), s') && piece in s.requested
    requires offset / 16384 in s.requested[piece].open
    requires forall c :: c in s.requested[piece].open ==> c == offset / 16384
    ensures piece < |s.completed| && |data| == Length(cfg, piece)
    ensures Overwritten(data, s.requested[piece].data, block, offset)
    ensures s'.completed == s.completed[piece := Passes(cfg, data, piece)] && !s.completed[piece]
    ensures s'.left == s.left - (if Passes(cfg, data, piece) then 1 else 0)
    ensures s'.flag == (s.flag || (Passes(cfg, data, piece) && s.left == 1))
    ensures Overwritten(s'.disk, s.disk, if Passes(cfg, data, piece) then data else [],
                        piece * cfg.pieceSize % 0x1_0000_0000)
    ensures s'.requested.Keys == s.requested.Keys - {piece}
    ensures forall q :: q in s'.requested ==> s'.requested[q] == s.requested[q]
    ensures s' == s.(completed := s'.completed, left := s'.left, flag := s'.flag, disk := s'.disk,
                     requested := s'.requested)
  {
    RequestedPiece(cfg, s, piece);
    ReceiveOk(s.requested[piece], cfg.PieceLen(piece), block, offset);
    LengthIs(cfg, piece);
    WriteFits(cfg, piece);
    var p := Receive(s.requested[piece], block, offset);
    NothingOpen(p.open);
    data := p.data;
    PassesIs(cfg, data, piece);
    hide InTorrent, IsPermutation, CeilDiv, ChunkLen, SwapRemove, PieceOk, Receive, Passes, Config.RefHash;
    DataIs(s.requested[piece], cfg.PieceLen(piece), block, offset);
  }

  lemma NothingOpen(open: seq<nat>)
    requires forall c :: c !in open
    ensures open == []
  {
    forall c ensures multiset(open)[c] == 0 {
      assert c in multiset(open) <==> c in open;
    }
    assert |multiset(open)| == |open|;
  }

  lemma DataIs(p: PieceState, size: nat, block: seq<byte>, offset: nat)
    requires PieceOk(p, size) && Arrives(p, offset, |block|) && offset / BLOCK_SIZE in p.open
    ensures Overwritten(Receive(p, block, offset).data, p.data, block, offset)
  {
  }

  /** The steps that throw a piece away, a failed check, are those after which some piece is no
      longer in progress and yet not completed. */
  lemma ThrownAwayIff(cfg: Config, s: State, e: Event, s': State)
    requires cfg.Ok() && Inv(cfg, s) && Step(cfg, s, e, s') && Inv(cfg, s')
    ensures Mismatch(cfg, s, e) <==> exists p :: Dropped(s, s', p)
  {
    hide Inv, Receive, Config.RefHash, AcceptBlock;
    StateSizes(cfg, s);
    match e
    case BlockArrived(piece, block, offset) => ArrivalThrows(cfg, s, piece, block, offset, s');
    case BlockAsked(bits, now, answer) => AskDrops(cfg, s, bits, now, answer, s');
    case PeerJoined(bits) => assert s'.requested == s.requested && !Mismatch(cfg, s, e);
    case PeerLeft(bits) => assert s'.requested == s.requested && !Mismatch(cfg, s, e);
    case PeerHas(piece) => assert s'.requested == s.requested && !Mismatch(cfg, s, e);
  }

  ghost predicate Dropped(s: State, s': State, p: nat) {
    p in s.requested && p !in s'.requested && p < |s'.completed| && !s'.completed[p]
  }

  lemma AskDrops(cfg: Config, s: State, bits: seq<bool>, now: Clock, answer: Option<Block>, s': State)
    requires cfg.Ok() && Inv(cfg, s) && Step(cfg, s, BlockAsked(bits, now, answer), s')
    ensures !Mismatch(cfg, s, BlockAsked(bits, now, answer)) && forall p :: !Dropped(s, s', p)
  {
    StateSizes(cfg, s);
    hide Inv, IsFresh, Length, MayAsk, Grantable, Listed;
    if answer.Some? {
      var k, p, i := GrantedIs(cfg, s, bits, now, s', answer.value);
    } else {
      RefusedIff(cfg, s, bits, now, s', None);
    }
  }

  lemma ArrivalThrows(cfg: Config, s: State, piece: nat, block: seq<byte>, offset: nat, s': State)
    requires cfg.Ok() && Inv(cfg, s) && Step(cfg, s, BlockArrived(piece, block, offset), s')
    ensures Mismatch(cfg, s, BlockArrived(piece, block, offset)) <==> exists p :: Dropped(s, s', p)
  {
    StateSizes(cfg, s);
    if piece in s.requested {
      RequestedPiece(cfg, s, piece);
      ReceiveOk(s.requested[piece], cfg.PieceLen(piece), block, offset);
      hide Inv, InTorrent, CeilDiv, ChunkLen, SwapRemove, Receive, Config.RefHash;
      if Mismatch(cfg, s, BlockArrived(piece, block, offset)) {
        assert Dropped(s, s', piece);
      }
    }
  }

  /** In every reachable state of a torrent no piece of which starts at 2^32 or later, the bytes
      of each completed piece stand in its place in the output, and their digest is the recorded
      one; once nothing is left, every byte belongs to a completed piece. */
  lemma DigestsOnDisk(cfg: Config, steps: seq<Transition>, t: State)
    requires cfg.Ok() && Reachable(cfg, steps, t)
    requires forall i: nat :: i * cfg.pieceSize < cfg.torrentSize ==> i * cfg.pieceSize < 0x1_0000_0000
    ensures |t.disk| == cfg.torrentSize
    ensures forall i :: 0 <= i < |t.completed| && t.completed[i] ==>
      && 0 <= i * cfg.pieceSize <= i * cfg.pieceSize + Length(cfg, i) <= |t.disk|
      && Passes(cfg, t.disk[i * cfg.pieceSize..i * cfg.pieceSize + Length(cfg, i)], i)
    ensures t.left == 0 ==> forall x :: 0 <= x < |t.disk| ==>
      0 <= x / cfg.pieceSize < |t.completed| && t.completed[x / cfg.pieceSize]
  {
    hide Inv, Reachable, CeilDiv, ChunkLen, Passes, DiskOkAt, Config.OffsetsFit, Length;
    OffsetsBelow(cfg);
    DiskIs(cfg, steps, t);
    forall i | 0 <= i < |t.completed| && t.completed[i]
      ensures 0 <= i * cfg.pieceSize <= i * cfg.pieceSize + Length(cfg, i) <= |t.disk|
      ensures Passes(cfg, t.disk[i * cfg.pieceSize..i * cfg.pieceSize + Length(cfg, i)], i)
    {
      OneDigest(cfg, t.disk, i, t.completed);
    }
    if t.left == 0 {
      LeftIsCount(cfg, t);
      AllTrue(t.completed);
      forall x | 0 <= x < |t.disk| ensures 0 <= x / cfg.pieceSize < |t.completed| {
        PieceOfEach(cfg, x, |t.completed|);
      }
    }
  }

  lemma PieceOfEach(cfg: Config, x: nat, n: nat)
    requires cfg.Ok() && x < cfg.torrentSize && n == cfg.PiecesCnt()
    ensures 0 <= x / cfg.pieceSize < n
  {
    hide CeilDiv, ChunkLen;
    ChunksPartition(cfg.torrentSize, cfg.pieceSize, x);
    DivNonNegative(x, cfg.pieceSize);
  }

  lemma DivNonNegative(x: nat, c: nat)
    requires c > 0
    ensures x / c >= 0
  {
  }

  /** No later step disturbs the bytes of a completed piece, nor its completion. */
  lemma BytesStay(cfg: Config, s: State, steps: seq<Transition>, t: State, i: nat, x: nat)
    requires cfg.Ok() && Inv(cfg, s) && Leads(cfg, s, steps, t) && i < |s.completed| && s.completed[i]
    requires forall j: nat :: j * cfg.pieceSize < cfg.torrentSize ==> j * cfg.pieceSize < 0x1_0000_0000
    requires x < Length(cfg, i)
    ensures i < |t.completed| && t.completed[i] && i * cfg.pieceSize + x < |s.disk| == |t.disk|
    ensures t.disk[i * cfg.pieceSize + x] == s.disk[i * cfg.pieceSize + x]
  {
    hide Inv, Leads, CeilDiv, ChunkLen, Config.OffsetsFit, Length, Config.Tile;
    OffsetsBelow(cfg);
    RunKeepsDisk(cfg, s, steps, t);
    StateSizes(cfg, s);
    StateSizes(cfg, t);
    LengthIs(cfg, i);
    TileAt(cfg, s.disk, i, x);
    TileAt(cfg, t.disk, i, x);
  }

  lemma TileAt(cfg: Config, disk: seq<byte>, i: nat, x: nat)
    requires cfg.pieceSize > 0 && i < cfg.PiecesCnt() && |disk| == cfg.torrentSize && x < cfg.PieceLen(i)
    ensures i * cfg.pieceSize + x < |disk| && cfg.Tile(disk, i)[x] == disk[i * cfg.pieceSize + x]
  {
    hide CeilDiv, ChunkLen;
    ChunkFits(cfg.torrentSize, cfg.pieceSize, i);
  }

  lemma DiskIs(cfg: Config, steps: seq<Transition>, t: State)
    requires cfg.Ok() && cfg.OffsetsFit() && Reachable(cfg, steps, t)
    ensures Inv(cfg, t) && |t.disk| == cfg.torrentSize && |t.completed| == cfg.PiecesCnt()
    ensures DiskOkAt(cfg, t.disk, t.completed)
  {
    EndToEnd(cfg, steps, t);
    StateSizes(cfg, t);
  }

  lemma OneDigest(cfg: Config, disk: seq<byte>, i: nat, completed: seq<bool>)
    requires cfg.Ok() && |disk| == cfg.torrentSize && |completed| == cfg.PiecesCnt()
    requires i < |completed| && completed[i] && DiskOkAt(cfg, disk, completed)
    ensures 0 <= i * cfg.pieceSize <= i * cfg.pieceSize + Length(cfg, i) <= |disk|
    ensures Passes(cfg, disk[i * cfg.pieceSize..i * cfg.pieceSize + Length(cfg, i)], i)
  {
    hide Passes, CeilDiv, ChunkLen;
    LengthIs(cfg, i);
    ChunkFits(cfg.torrentSize, cfg.pieceSize, i);
    PassesIs(cfg, cfg.Tile(disk, i), i);
  }

  ghost predicate DiskOkAt(cfg: Config, disk: seq<byte>, completed: seq<bool>)
    requires cfg.Ok() && |disk| == cfg.torrentSize && |completed| == cfg.PiecesCnt()
  {
    forall i :: 0 <= i < |completed| && completed[i] ==> cfg.Verified(cfg.Tile(disk, i), i)
  }

  lemma OffsetsBelow(cfg: Config)
    requires cfg.Ok()
    requires forall i: nat :: i * cfg.pieceSize < cfg.torrentSize ==> i * cfg.pieceSize < 0x1_0000_0000
    ensures cfg.OffsetsFit()
  {
    if cfg.PiecesCnt() > 0 {
      LengthIs(cfg, cfg.PiecesCnt() - 1);
    }
  }

  // ----- a block is asked for ----------------------------------------------

  /** The memory for pieces in progress is 512 MiB, rounded up to whole pieces. */
  lemma CapIs(cfg: Config)
    requires cfg.Ok()
    ensures (cfg.Cap() - 1) * cfg.pieceSize < 0x2000_0000 <= cfg.Cap() * cfg.pieceSize
    ensures forall n: nat :: n < cfg.Cap() <==> n * cfg.pieceSize < 0x2000_0000
  {
    CeilDivBounds(0x2000_0000, cfg.pieceSize);
    var cap := cfg.Cap();
    forall n: nat ensures n < cap <==> n * cfg.pieceSize < 0x2000_0000 {
      if n < cap {
        MulLe(n, cap - 1, cfg.pieceSize);
      } else {
        MulLe(cap, n, cfg.pieceSize);
      }
    }
  }

  /** Block b of a piece with these request times may be asked for. */
  predicate MayAsk(ts: seq<int>, b: nat, clock: int, timeout: int) {
    b < |ts| && (ts[b] == -0x8000_0000_0000_0000 || clock - timeout > ts[b])
  }

  /** The peer has the piece and it is incomplete; it is in progress and misses a block that may be
      asked for, or it is not and there is memory left for it. */
  ghost predicate Grantable(cfg: Config, s: State, bits: seq<bool>, now: Clock, p: nat) {
    && p < |s.completed| && !s.completed[p] && p < |bits| && bits[p]
    && if p in s.requested
       then exists b :: b in s.requested[p].open && MayAsk(s.requested[p].requestTime, b, now.read(p)(b), cfg.timeout)
       else |s.requested| * cfg.pieceSize < 0x2000_0000
  }

  lemma GrantableIs(cfg: Config, s: State, bits: seq<bool>, now: Clock, p: nat)
    requires cfg.Ok()
    ensures Grantable(cfg, s, bits, now, p) <==> CanYield(cfg, s, bits, now, p)
  {
    hide NextBlock, CeilDiv;
    CapIs(cfg);
    if p in s.requested {
      var q := s.requested[p];
      forall b | b in q.open
        ensures Requestable(q.requestTime, b, now.read(p)(b), cfg.timeout)
           <==> MayAsk(q.requestTime, b, now.read(p)(b), cfg.timeout)
      {
      }
    }
  }

  /** A request is refused if and only if every piece is completed or none is grantable; then
      nothing changes but the order, and endgame mode may begin. */
  lemma RefusedIff(cfg: Config, s: State, bits: seq<bool>, now: Clock, s': State, answer: Option<Block>)
    requires cfg.Ok() && Inv(cfg, s) && |bits| >= cfg.PiecesCnt()
    requires Step(cfg, s, BlockAsked(bits, now, answer), s')
    ensures answer == None <==>
      (forall p :: 0 <= p < |s.completed| ==> s.completed[p]) || forall p :: !Grantable(cfg, s, bits, now, p)
    ensures answer == None ==>
      s' == s.(sorted := s'.sorted, isSorted := s'.isSorted,
              endgame := s'.endgame, endgameRequests := s'.endgameRequests)
  {
    hide Grantable, CanYield, NextBlock, CeilDiv, RequestedOk, InTorrent, IsPermutation, Ordered, TakesBlock;
    LeftIsCount(cfg, s);
    AllTrue(s.completed);
    forall p: nat ensures Grantable(cfg, s, bits, now, p) <==> CanYield(cfg, s, bits, now, p) {
      GrantableIs(cfg, s, bits, now, p);
    }
  }

  /** While there is memory left, a peer with an incomplete piece that is not in progress is always
      granted a block. */
  lemma RoomIsUsed(cfg: Config, s: State, bits: seq<bool>, now: Clock, s': State, answer: Option<Block>, p: nat)
    requires cfg.Ok() && Inv(cfg, s) && |bits| >= cfg.PiecesCnt()
    requires Step(cfg, s, BlockAsked(bits, now, answer), s')
    requires p < |s.completed| && !s.completed[p] && bits[p] && p !in s.requested
    requires |s.requested| * cfg.pieceSize < 0x2000_0000
    ensures answer.Some?
  {
    hide Step, Inv, CeilDiv;
    StateSizes(cfg, s);
    RefusedIff(cfg, s, bits, now, s', answer);
    assert Grantable(cfg, s, bits, now, p);
  }

  ghost predicate ByRarity(list: seq<nat>, avail: seq<nat>) {
    && (forall i :: 0 <= i < |list| ==> list[i] < |avail|)
    && forall i, j :: 0 <= i < j < |list| ==> avail[list[i]] <= avail[list[j]]
  }

  /** The list names every piece once, and if it was not taken for sorted before, it now is by
      rarity. */
  ghost predicate Listed(cfg: Config, s: State, s': State) {
    && |s'.sorted| == |s.completed| == |s.avail| && s'.isSorted
    && (forall p: nat :: p < |s.completed| <==> p in s'.sorted)
    && (s.isSorted ==> s'.sorted == s.sorted)
    && (!s.isSorted ==> ByRarity(s'.sorted, s.avail))
  }

  /** The block that is granted: of the first grantable piece in the list, and the first of it
      that may be asked for; it is whole, and only its request time changes, a new piece
      starting with nothing received and nothing asked for. */
  lemma GrantedIs(cfg: Config, s: State, bits: seq<bool>, now: Clock, s': State, block: Block)
    returns (k: nat, p: PieceState, i: nat)
    requires cfg.Ok() && Inv(cfg, s) && |bits| >= cfg.PiecesCnt()
    requires Step(cfg, s, BlockAsked(bits, now, Some(block)), s')
    ensures Listed(cfg, s, s') && k < |s'.sorted| && s'.sorted[k] == block.piece
    ensures Grantable(cfg, s, bits, now, block.piece)
    ensures forall j :: 0 <= j < k ==> !Grantable(cfg, s, bits, now, s'.sorted[j])
    ensures if block.piece in s.requested then p == s.requested[block.piece] else IsFresh(p, Length(cfg, block.piece))
    ensures i < |p.open| && MayAsk(p.requestTime, p.open[i], now.read(block.piece)(p.open[i]), cfg.timeout)
    ensures forall j :: 0 <= j < i ==>
      !MayAsk(p.requestTime, p.open[j], now.read(block.piece)(p.open[j]), cfg.timeout)
    ensures block.offset == p.open[i] * 16384
    ensures block.size == if block.offset + 16384 <= Length(cfg, block.piece) then 16384
                          else Length(cfg, block.piece) - block.offset
    ensures p.open[i] < |p.requestTime|
    ensures s'.requested == s.requested[block.piece := p.(requestTime := p.requestTime[p.open[i] := now.stamp])]
    ensures s' == s.(sorted := s'.sorted, isSorted := true, requested := s'.requested)
  {
    hide CanYield, CeilDiv, RequestedOk, InTorrent, Grantable, NextBlock, ChunkLen, FreshPiece, IsPermutation;
    PermutationIndices(s'.sorted, cfg.PiecesCnt());
    StateSizes(cfg, s);
    k :| 0 <= k < |s'.sorted| && s'.sorted[k] == block.piece && CanYield(cfg, s, bits, now, block.piece)
      && forall j :: 0 <= j < k ==> !CanYield(cfg, s, bits, now, s'.sorted[j]);
    GrantableIs(cfg, s, bits, now, block.piece);
    forall j | 0 <= j < k ensures !Grantable(cfg, s, bits, now, s'.sorted[j]) {
      GrantableIs(cfg, s, bits, now, s'.sorted[j]);
    }
    LengthIs(cfg, block.piece);
    p := Candidate(cfg, s, block.piece);
    FreshIs(cfg.PieceLen(block.piece));
    i := FirstDue(p.open, p.requestTime, now.read(block.piece), cfg.timeout);
    BlockLength(cfg.PieceLen(block.piece), p.open[i]);
  }

  /** Every block is missing and was never asked for, and the data are zeros. */
  ghost predicate IsFresh(p: PieceState, size: int) {
    && p.size == size == |p.data| && (forall x :: 0 <= x < |p.data| ==> p.data[x] == 0)
    && 0 <= (|p.requestTime| - 1) * 16384 < size <= |p.requestTime| * 16384
    && (forall b :: 0 <= b < |p.requestTime| ==> p.requestTime[b] == -0x8000_0000_0000_0000)
    && |p.open| == |p.requestTime| && forall b :: 0 <= b < |p.open| ==> p.open[b] == b
  }

  lemma FreshIs(size: nat)
    requires size >= 1
    ensures IsFresh(FreshPiece(size), size)
  {
    CeilDivBounds(size, 16384);
  }

  lemma BlockLength(size: nat, b: nat)
    requires b < BlocksIn(size)
    ensures ChunkLen(size, BLOCK_SIZE, b) == if b * 16384 + 16384 <= size then 16384 else size - b * 16384
  {
    ChunkEnds(size, BLOCK_SIZE, b);
  }

  lemma {:induction false} FirstDue(open: seq<nat>, ts: seq<int>, clock: nat -> int, timeout: int) returns (i: nat)
    requires NextBlock(open, ts, clock, timeout).Some?
    ensures i < |open| && open[i] == NextBlock(open, ts, clock, timeout).value
    ensures MayAsk(ts, open[i], clock(open[i]), timeout)
    ensures forall j :: 0 <= j < i ==> !MayAsk(ts, open[j], clock(open[j]), timeout)
  {
    if Requestable(ts, open[0], clock(open[0]), timeout) {
      i := 0;
    } else {
      var rest := FirstDue(open[1..], ts, clock, timeout);
      i := rest + 1;
    }
  }

  /** Endgame mode begins at a refusal if and only if pieces are left, all incomplete ones are in
      progress and each of their blocks has a request time; the list then names each missing
      block once, at 16384 bytes. */
  lemma EndgameBegins(cfg: Config, s: State, bits: seq<bool>, now: Clock, s': State)
    requires cfg.Ok() && Inv(cfg, s) && |bits| >= cfg.PiecesCnt() && !s.endgame
    requires Step(cfg, s, BlockAsked(bits, now, None), s')
    ensures s'.endgame <==>
      && (exists p :: 0 <= p < |s.completed| && !s.completed[p])
      && (forall p :: 0 <= p < |s.completed| && !s.completed[p] ==> p in s.requested)
      && (forall p, b :: p in s.requested && 0 <= b < |s.requested[p].requestTime| ==>
            s.requested[p].requestTime[b] != -0x8000_0000_0000_0000)
    ensures s'.endgame ==>
      && (forall i, j :: 0 <= i < j < |s'.endgameRequests| ==> s'.endgameRequests[i] != s'.endgameRequests[j])
      && forall r :: r in s'.endgameRequests <==>
           && r.piece in s.requested && r.offset % 16384 == 0 && r.size == 16384
           && r.offset / 16384 in s.requested[r.piece].open
    ensures !s'.endgame ==> s'.endgameRequests == s.endgameRequests
  {
    EndgameBeginsIff(cfg, s, bits, now, s');
    LeftIsCount(cfg, s);
    AllTrue(s.completed);
    RequestedWithinIncomplete(cfg, s);
    AskedPieceByPiece(s);
    StateSizes(cfg, s);
    ListIsMade(cfg, s, bits, now, s');
    hide Inv, Step, Unrequested, CeilDiv, AllMissingAsked, Stray;
    assert s.requested.Keys == Incomplete(s.completed) <==>
      forall p :: 0 <= p < |s.completed| && !s.completed[p] ==> p in s.requested;
    if s'.endgame {
      forall r ensures r in s'.endgameRequests <==>
        && r.piece in s.requested && r.offset % 16384 == 0 && r.size == 16384
        && r.offset / 16384 in s.requested[r.piece].open
      {
        ListedIs(s.requested, s'.endgameRequests, r);
      }
    }
  }

  lemma ListIsMade(cfg: Config, s: State, bits: seq<bool>, now: Clock, s': State)
    requires cfg.Ok() && Inv(cfg, s) && !s.endgame && Step(cfg, s, BlockAsked(bits, now, None), s')
    ensures if s'.endgame then ListsOpenBlocks(s.requested, s'.endgameRequests)
            else s'.endgameRequests == s.endgameRequests
  {
    hide CanYield, CeilDiv, RequestedOk, InTorrent, IsPermutation, Ordered, ListsOpenBlocks, Unrequested;
  }

  lemma ListedIs(requested: map<nat, PieceState>, reqs: seq<Block>, r: Block)
    requires ListsOpenBlocks(requested, reqs)
    ensures r in reqs <==>
      && r.piece in requested && r.offset % 16384 == 0 && r.size == 16384
      && r.offset / 16384 in requested[r.piece].open
  {
    if r.piece in requested && r.offset % 16384 == 0 && r.size == 16384 && r.offset / 16384 in requested[r.piece].open {
      assert Block(r.piece, r.offset / 16384 * 16384, 16384) == r;
    }
    if r in reqs {
      assert OpenRequest(requested, r);
    }
  }

  /** While the list is in order by rarity, or is sorted now, no grantable piece is rarer than the
      one the granted block is of. */
  lemma RarestIs(cfg: Config, s: State, bits: seq<bool>, now: Clock, s': State, block: Block, p: nat)
    requires cfg.Ok() && Inv(cfg, s) && |bits| >= cfg.PiecesCnt() && (s.isSorted ==> ByRarity(s.sorted, s.avail))
    requires Step(cfg, s, BlockAsked(bits, now, Some(block)), s') && Grantable(cfg, s, bits, now, p)
    ensures block.piece < |s.avail| && p < |s.avail| && s.avail[block.piece] <= s.avail[p]
  {
    hide Step, Inv, CeilDiv, IsFresh, Length, MayAsk;
    StateSizes(cfg, s);
    var k, q, i := GrantedIs(cfg, s, bits, now, s', block);
    var j := IndexOf(s'.sorted, p);
  }

  /** A block is granted again only more than the timeout after, as long as its piece stays in progress
      and the clock does not run back. */
  lemma SameBlockApart(cfg: Config, s: State, bits: seq<bool>, now: Clock, s1: State, block: Block,
                       steps: seq<Transition>, t: State, bits': seq<bool>, now': Clock, t': State)
    requires cfg.Ok() && Inv(cfg, s) && Step(cfg, s, BlockAsked(bits, now, Some(block)), s1) && Inv(cfg, s1)
    requires Leads(cfg, s1, steps, t) && Inv(cfg, t) && Step(cfg, t, BlockAsked(bits', now', Some(block)), t')
    requires forall k :: 0 <= k < |steps| ==> block.piece in steps[k].after.requested
    requires forall k :: 0 <= k < |steps| && steps[k].event.BlockAsked? ==> steps[k].event.now.stamp >= now.stamp
    ensures now'.read(block.piece)(block.offset / 16384) - now.stamp > cfg.timeout
  {
    hide Inv, Step, Leads;
    Selection.GrantsAreApart(cfg, s, bits, now, s1, block, steps, t, bits', now', t');
  }

  // ----- progress ----------------------------------------------------------

  /** The reported number is a full piece for each completed one. */
  lemma DownloadedIs(cfg: Config, s: State)
    requires cfg.Ok() && Inv(cfg, s)
    ensures DownloadedBytes(cfg, s) == |set i | 0 <= i < |s.completed| && s.completed[i]| * cfg.pieceSize
  {
    hide Inv;
    StateSizes(cfg, s);
    LeftIsCount(cfg, s);
    DoneCard(s.completed);
  }

  lemma DoneCard(completed: seq<bool>)
    ensures |set i | 0 <= i < |completed| && completed[i]| == |completed| - CountFalse(completed)
  {
    CountFalseIsCard(completed);
    var done := set i | 0 <= i < |completed| && completed[i];
    assert Range(0, |completed|) == done + Incomplete(completed) && done !! Incomplete(completed);
  }

  ghost function Range(a: nat, n: nat): (r: set<nat>)
    ensures |r| == n && forall x: nat :: x in r <==> a <= x < a + n
  {
    if n == 0 then {} else Range(a, n - 1) + {a + n - 1}
  }

  /** The bytes of the torrent that belong to completed pieces. */
  ghost function BytesDone(cfg: Config, completed: seq<bool>): set<nat>
    requires cfg.pieceSize > 0
  {
    set x: nat | x < cfg.torrentSize && PieceAt(cfg, x) < |completed| && completed[PieceAt(cfg, x)]
  }

  ghost function PieceAt(cfg: Config, x: nat): nat
    requires cfg.pieceSize > 0
  {
    x / cfg.pieceSize
  }

  lemma {:induction false} VerifiedBytesAre(cfg: Config, completed: seq<bool>)
    requires cfg.Ok() && |completed| <= cfg.PiecesCnt()
    ensures VerifiedBytes(cfg, completed, |completed|) == |BytesDone(cfg, completed)|
  {
    hide CeilDiv, ChunkLen, BytesDone;
    if completed != [] {
      var n := |completed| - 1;
      VerifiedBytesAre(cfg, completed[..n]);
      VerifiedPrefix(cfg, completed, n);
      BytesDoneMore(cfg, completed, n);
    } else {
      NoBytesDone(cfg);
    }
  }

  lemma NoBytesDone(cfg: Config)
    requires cfg.pieceSize > 0
    ensures BytesDone(cfg, []) == {}
  {
  }

  lemma BytesDoneMore(cfg: Config, completed: seq<bool>, n: nat)
    requires cfg.Ok() && n < |completed| == n + 1 <= cfg.PiecesCnt()
    ensures |BytesDone(cfg, completed)|
         == |BytesDone(cfg, completed[..n])| + (if completed[n] then cfg.PieceLen(n) else 0)
  {
    var before, own := BytesDone(cfg, completed[..n]), Range(n * cfg.pieceSize, cfg.PieceLen(n));
    hide CeilDiv, ChunkLen, Range, PieceAt;
    forall x: nat ensures x in own <==> x < cfg.torrentSize && PieceAt(cfg, x) == n {
      OwnByte(cfg, n, x);
    }
    assert BytesDone(cfg, completed) == if completed[n] then before + own else before;
    assert before !! own;
  }

  lemma OwnByte(cfg: Config, n: nat, x: nat)
    requires cfg.Ok() && n < cfg.PiecesCnt()
    ensures n * cfg.pieceSize <= x < n * cfg.pieceSize + cfg.PieceLen(n)
       <==> x < cfg.torrentSize && PieceAt(cfg, x) == n
  {
    ChunkFits(cfg.torrentSize, cfg.pieceSize, n);
    if x < cfg.torrentSize {
      ChunksPartition(cfg.torrentSize, cfg.pieceSize, x);
    }
  }

  lemma VerifiedPrefix(cfg: Config, completed: seq<bool>, n: nat)
    requires cfg.Ok() && n < |completed| <= cfg.PiecesCnt()
    ensures VerifiedBytes(cfg, completed, n) == VerifiedBytes(cfg, completed[..n], n)
  {
    VerifiedUpTo(cfg, completed, completed[..n], n);
  }

  lemma {:induction false} VerifiedUpTo(cfg: Config, a: seq<bool>, b: seq<bool>, n: nat)
    requires cfg.Ok() && n <= |a| <= cfg.PiecesCnt() && n <= |b| <= cfg.PiecesCnt() && a[..n] == b[..n]
    ensures VerifiedBytes(cfg, a, n) == VerifiedBytes(cfg, b, n)
  {
    if n > 0 {
      assert a[..n][n - 1] == a[n - 1] && b[..n][n - 1] == b[n - 1];
      assert a[..n][..n - 1] == a[..n - 1] && b[..n][..n - 1] == b[..n - 1];
      VerifiedUpTo(cfg, a, b, n - 1);
    }
  }

  // ----- peers come, go and announce ---------------------------------------

  function In16Bits(v: uint16, d: int): (r: uint16) {
    (v as int + d) % 0x1_0000
  }

  /** A bitfield counts up or down in 16 bits, and the list is no longer taken for sorted if and
      only if some piece of the torrent has its bit set. */
  lemma PeerCounts(cfg: Config, s: State, bits: seq<bool>, joins: bool, s': State)
    requires cfg.Ok() && Inv(cfg, s)
    requires Step(cfg, s, if joins then PeerJoined(bits) else PeerLeft(bits), s')
    ensures |bits| >= |s.avail| == |s'.avail| && s' == s.(avail := s'.avail, isSorted := s'.isSorted)
    ensures forall i :: 0 <= i < |s.avail| ==>
      s'.avail[i] == if !bits[i] then s.avail[i] else In16Bits(s.avail[i], if joins then 1 else -1)
    ensures s'.isSorted <==> s.isSorted && forall i :: 0 <= i < |s.avail| ==> !bits[i]
  {
    hide RequestedOk, InTorrent, IsPermutation, CeilDiv;
  }

  /** A have message counts one up in 16 bits.  In a list that is taken for sorted, the binary search
      ends at some place where the comparison with w changes, w being the counter of the piece whose
      number is the counter; the entry before that place and the nearest one at or before it that is
      the piece, or else the first, change places. */
  lemma HaveCounts(cfg: Config, s: State, piece: nat, s': State) returns (w: nat, bound: nat, i: nat)
    requires cfg.Ok() && Inv(cfg, s) && Step(cfg, s, PeerHas(piece), s')
    ensures piece < |s.avail| && s'.avail == s.avail[piece := In16Bits(s.avail[piece], 1)]
    ensures s' == s.(avail := s'.avail, sorted := s'.sorted)
    ensures forall k :: 0 <= k < |s.sorted| ==> s.sorted[k] < |s.avail|
    ensures !s.isSorted ==> s'.sorted == s.sorted
    ensures s.isSorted ==>
      && (s.avail[piece] < |s.avail| ==> w == s.avail[s.avail[piece]]) && bound <= |s.sorted|
      && (bound > 0 ==> s.avail[s.sorted[bound - 1]] <= w) && (bound < |s.sorted| ==> s.avail[s.sorted[bound]] > w)
      && (bound == 0 ==> s'.sorted == s.sorted)
      && (bound > 0 ==>
            && i < bound && (i == 0 || s.sorted[i] == piece) && (forall j :: i < j < bound ==> s.sorted[j] != piece)
            && s'.sorted == s.sorted[i := s.sorted[bound - 1]][bound - 1 := s.sorted[i]])
  {
    hide RequestedOk, InTorrent, IsPermutation, CeilDiv;
    w, bound, i := 0, 0, 0;
    if s.isSorted {
      w, bound :| ReorderedAt(s.sorted, s'.sorted, s.avail, piece, w, bound);
      if bound > 0 {
        i := WalkBack(s.sorted, piece, bound - 1);
      }
    }
  }

  // ----- the start ---------------------------------------------------------

  /** A state as the constructor makes it. */
  lemma StartIs(cfg: Config)
    requires cfg.Ok()
    ensures var s := Init(cfg);
      && |s.completed| == |s.avail| == |s.sorted| == s.left
      && (forall i: nat :: i < |s.completed| <==> i * cfg.pieceSize < cfg.torrentSize)
      && (forall i :: 0 <= i < |s.completed| ==> !s.completed[i] && s.avail[i] == 0 && s.sorted[i] == i)
      && s.requested == map[] && !s.isSorted && !s.flag && !s.endgame && s.endgameRequests == []
      && |s.disk| == cfg.torrentSize && forall x :: 0 <= x < |s.disk| ==> s.disk[x] == 0
  {
    forall i: nat ensures i < cfg.PiecesCnt() <==> i * cfg.pieceSize < cfg.torrentSize {
      LengthIs(cfg, i);
    }
  }

  /** A configuration is accepted with a piece size up to 2^30 and, for every piece, twenty bytes
      of digest within a string below 2^32. */
  lemma OkIs(cfg: Config)
    ensures cfg.Ok() <==>
      && 1 <= cfg.pieceSize <= 0x4000_0000 && |cfg.hashes| < 0x1_0000_0000
      && forall i: nat :: i * cfg.pieceSize < cfg.torrentSize ==> 20 * i + 20 <= |cfg.hashes|
  {
    if cfg.pieceSize > 0 {
      CeilDivBounds(cfg.torrentSize, cfg.pieceSize);
      var n := cfg.PiecesCnt();
      if n > 0 {
        assert (n - 1) * cfg.pieceSize < cfg.torrentSize;
      }
      forall i: nat | i * cfg.pieceSize < cfg.torrentSize ensures i < n {
        if i >= n {
          MulLe(n, i, cfg.pieceSize);
        }
      }
    }
  }

  /** A block counts as received if its piece is completed, or in progress without missing it. */
  lemma ReceivedIs(cfg: Config, s: State, piece: nat, offset: nat)
    requires piece < |s.completed|
    ensures IsReceived(cfg, s, piece, offset) <==>
      s.completed[piece] || (piece in s.requested && offset / 16384 !in s.requested[piece].open)
  {
  }
}
