/** Torrents of more than 4 GiB.  The offset of a piece is a 32-bit product, so a piece that
    starts at 2^32 or later is written elsewhere: its own place stays empty, and a piece
    already there is overwritten. */
module WrappedOffsets {
  import opened Prelude
  import opened Layout
  import opened Pieces
  import opened Engine
  import opened Download
  import opened Runs

  ghost predicate Wraps(cfg: Config, i: nat) {
    i * cfg.pieceSize >= TWO_TO_32
  }

  // ----- what one write does to every piece --------------------------------

  /** What was at lo, after data was written at `at`: the bytes in the written range are new. */
  function Overlay<T>(before: seq<T>, lo: nat, at: nat, data: seq<T>): (r: seq<T>)
    ensures |r| == |before|
    ensures at + |data| <= lo || lo + |before| <= at ==> r == before
  {
    seq(|before|, k requires 0 <= k < |before| => if at <= lo + k < at + |data| then data[lo + k - at] else before[k])
  }

  lemma SpliceOverlays<T>(s: seq<T>, at: nat, data: seq<T>, lo: nat, hi: nat)
    requires at + |data| <= |s| && lo <= hi <= |s|
    ensures Splice(s, at, data)[lo..hi] == Overlay(s[lo..hi], lo, at, data)
  {
  }

  /** The bytes of piece j after this data was written as the given piece. */
  ghost function TileAfter(cfg: Config, before: seq<byte>, piece: nat, data: seq<byte>, j: nat): seq<byte> {
    Overlay(before, j * cfg.pieceSize, cfg.DiskOffset(piece), data)
  }

  /** The exact effect on every piece's place in the output, whether the offset wraps or not:
      the bytes inside the written range are overwritten, all others stay. */
  lemma EveryTileAfterWrite(cfg: Config, s: State, piece: nat, data: seq<byte>, j: nat)
    requires cfg.Ok() && |s.completed| == cfg.PiecesCnt() && |s.disk| == cfg.torrentSize
    requires piece < cfg.PiecesCnt() && j < cfg.PiecesCnt()
    requires |data| == cfg.PieceLen(piece) && cfg.Verified(data, piece)
    ensures var before, after := cfg.Tile(s.disk, j), cfg.Tile(FinishPiece(cfg, s, piece, data).disk, j);
      && after == TileAfter(cfg, before, piece, data, j)
      && (Apart(cfg, piece, j) ==> after == before)
  {
    hide ToUint32, CeilDiv, ChunkLen, Config.DiskOffset, Splice, Overlay;
    WriteFits(cfg, piece);
    ChunkFits(cfg.torrentSize, cfg.pieceSize, j);
    var lo := j * cfg.pieceSize;
    SpliceOverlays(s.disk, cfg.DiskOffset(piece), data, lo, lo + cfg.PieceLen(j));
  }

  /** The range that a piece is written to does not meet the place of piece j. */
  ghost predicate Apart(cfg: Config, piece: nat, j: nat)
    requires cfg.pieceSize > 0 && piece < cfg.PiecesCnt() && j < cfg.PiecesCnt()
  {
    var lo, at := j * cfg.pieceSize, cfg.DiskOffset(piece);
    at + cfg.PieceLen(piece) <= lo || lo + cfg.PieceLen(j) <= at
  }

  /** A wrapped write never meets the piece's own place ... */
  lemma WrappedWriteMissesItself(cfg: Config, piece: nat)
    requires cfg.Ok() && piece < cfg.PiecesCnt() && Wraps(cfg, piece)
    ensures Apart(cfg, piece, piece)
  {
    hide ToUint32, CeilDiv, ChunkLen;
    ChunkFits(cfg.torrentSize, cfg.pieceSize, piece);
  }

  /** ... and always meets a piece whose own offset fits. */
  lemma WrappedWriteHitsAnother(cfg: Config, piece: nat)
    requires cfg.Ok() && piece < cfg.PiecesCnt() && Wraps(cfg, piece)
    ensures exists j: nat :: j < cfg.PiecesCnt() && !Wraps(cfg, j) && !Apart(cfg, piece, j)
  {
    hide ToUint32, CeilDiv, ChunkLen;
    ChunkFits(cfg.torrentSize, cfg.pieceSize, piece);
    WriteFits(cfg, piece);
    var at := cfg.DiskOffset(piece);
    var j := PieceOfByte(cfg, at);
    HitAt(cfg, piece, at, j);
  }

  lemma HitAt(cfg: Config, piece: nat, at: nat, j: nat)
    requires cfg.Ok() && piece < cfg.PiecesCnt() && j < cfg.PiecesCnt()
    requires at == cfg.DiskOffset(piece) && j * cfg.pieceSize <= at < j * cfg.pieceSize + cfg.PieceLen(j)
    ensures !Wraps(cfg, j) && !Apart(cfg, piece, j)
  {
    hide ToUint32, CeilDiv, ChunkLen;
    ChunkFits(cfg.torrentSize, cfg.pieceSize, piece);
  }

  // ----- pieces that are lost ----------------------------------------------

  /** What the torrent's pieces are: each passes its check, and zero bytes in its place do not. */
  ghost predicate Content(cfg: Config, content: seq<seq<byte>>)
    requires cfg.Ok()
  {
    && |content| == cfg.PiecesCnt()
    && forall i :: 0 <= i < |content| ==> PieceContent(cfg, i, content[i])
  }

  ghost predicate PieceContent(cfg: Config, i: nat, data: seq<byte>)
    requires cfg.Ok() && i < cfg.PiecesCnt()
  {
    |data| == cfg.PieceLen(i) && cfg.Verified(data, i) && !cfg.Verified(seq(|data|, _ => 0), i)
  }

  ghost predicate Sound(cfg: Config, t: State)
    requires cfg.Ok()
  {
    Inv(cfg, t) && DiskOk(cfg, t)
  }

  /** From the start, any piece can be fetched with data that passes its check; the effect
      on the output is that one write. */
  lemma FetchFirst(cfg: Config, i: nat, data: seq<byte>)
    requires cfg.Ok() && i < cfg.PiecesCnt() && |data| == cfg.PieceLen(i) && cfg.Verified(data, i)
    ensures Quiet(cfg, Delivered(cfg, Init(cfg), i, data))
    ensures Delivered(cfg, Init(cfg), i, data).completed == Init(cfg).completed[i := true]
    ensures exists steps :: Reachable(cfg, steps, Delivered(cfg, Init(cfg), i, data))
  {
    InitIsQuiet(cfg);
    FetchPiece(cfg, Init(cfg), i, data);
    hide Leads;
    var steps :| Leads(cfg, Init(cfg), steps, Delivered(cfg, Init(cfg), i, data));
    assert Reachable(cfg, steps, Delivered(cfg, Init(cfg), i, data));
  }

  lemma BlankTile(cfg: Config, i: nat)
    requires cfg.Ok() && i < cfg.PiecesCnt()
    ensures cfg.Tile(Init(cfg).disk, i) == seq(cfg.PieceLen(i), _ => 0)
  {
    ChunkFits(cfg.torrentSize, cfg.pieceSize, i);
    hide CeilDiv, ChunkLen;
  }

  /** Piece i counts as completed, and its place in the output still holds zeros. */
  ghost predicate Lost(cfg: Config, i: nat, t: State)
    requires cfg.Ok() && i < cfg.PiecesCnt()
  {
    && Inv(cfg, t) && t.completed == Init(cfg).completed[i := true]
    && cfg.Tile(t.disk, i) == seq(cfg.PieceLen(i), _ => 0)
  }

  /** For every piece beyond 2^32, of whatever number of blocks, there is a reachable state
      in which it counts as completed while its place in the output still holds zeros. */
  lemma CompletedPieceIsLost(cfg: Config, i: nat, data: seq<byte>)
    requires cfg.Ok() && i < cfg.PiecesCnt() && Wraps(cfg, i) && PieceContent(cfg, i, data)
    ensures exists steps, t :: Reachable(cfg, steps, t) && Lost(cfg, i, t) && !Sound(cfg, t)
  {
    FetchFirst(cfg, i, data);
    var t := Delivered(cfg, Init(cfg), i, data);
    BlankTile(cfg, i);
    TileWrittenIffOffsetFits(cfg, Init(cfg).(isSorted := true), i, data);
    assert Lost(cfg, i, t);
    hide Inv, Leads, Config.Tile, Config.Verified, Lost;
    assert t.completed[i] && !cfg.Verified(cfg.Tile(t.disk, i), i);
    var steps :| Reachable(cfg, steps, t);
  }

  // ----- pieces that are overwritten ---------------------------------------

  /** From s, where piece j is completed and passes its check, the steps lead to a state
      where it still counts as completed and no longer passes. */
  ghost predicate Destroys(cfg: Config, j: nat, s: State, steps: seq<Transition>, t: State)
    requires cfg.Ok() && j < cfg.PiecesCnt()
  {
    && Inv(cfg, s) && Inv(cfg, t) && Leads(cfg, s, steps, t)
    && s.completed[j] && cfg.Verified(cfg.Tile(s.disk, j), j)
    && t.completed[j] && !cfg.Verified(cfg.Tile(t.disk, j), j)
  }

  /** A completed and verified piece whose own offset fits is destroyed by a later one that
      wraps onto it, unless it passes its check with the overwritten bytes as well. */
  lemma VerifiedPieceIsDestroyed(cfg: Config, j: nat, own: seq<byte>, i: nat, data: seq<byte>)
    requires cfg.Ok() && j < cfg.PiecesCnt() && !Wraps(cfg, j) && |own| == cfg.PieceLen(j) && cfg.Verified(own, j)
    requires i < cfg.PiecesCnt() && Wraps(cfg, i) && |data| == cfg.PieceLen(i) && cfg.Verified(data, i)
    requires !cfg.Verified(TileAfter(cfg, own, i, data, j), j)
    ensures exists first, s, steps, t :: Reachable(cfg, first, s) && Destroys(cfg, j, s, steps, t)
  {
    FetchFirst(cfg, j, own);
    var s0, s := Init(cfg), Delivered(cfg, Init(cfg), j, own);
    TileWrittenIffOffsetFits(cfg, s0.(isSorted := true), j, own);
    FetchPiece(cfg, s, i, data);
    var t := Delivered(cfg, s, i, data);
    EveryTileAfterWrite(cfg, s.(isSorted := true), i, data, j);
    assert t.completed[j];
    hide Inv, Leads, Delivered, Config.Tile, Config.Verified, TileAfter;
    var first :| Reachable(cfg, first, s);
    var steps :| Leads(cfg, s, steps, t);
    assert Destroys(cfg, j, s, steps, t);
  }

  // ----- the exact condition -----------------------------------------------

  /** For a torrent with such content, every reachable state is sound if and only if no
      piece offset wraps. */
  lemma SoundIffOffsetsFit(cfg: Config, content: seq<seq<byte>>)
    requires cfg.Ok() && Content(cfg, content)
    ensures (forall steps, t :: Reachable(cfg, steps, t) ==> Sound(cfg, t)) <==> cfg.OffsetsFit()
  {
    if cfg.OffsetsFit() {
      forall steps, t | Reachable(cfg, steps, t) ensures Sound(cfg, t) {
        EndToEnd(cfg, steps, t);
      }
    } else {
      var i := cfg.PiecesCnt() - 1;
      assert PieceContent(cfg, i, content[i]);
      CompletedPieceIsLost(cfg, i, content[i]);
    }
  }

  // ----- piece sizes that divide 2^32 --------------------------------------

  /** Nothing has been written from byte 2^32 on. */
  ghost predicate HighBytesBlank(disk: seq<byte>) {
    forall x :: TWO_TO_32 <= x < |disk| ==> disk[x] == 0
  }

  /** Whole pieces fit below 2^32, so no write crosses it. */
  lemma WriteStaysLow(cfg: Config, i: nat)
    requires cfg.Ok() && i < cfg.PiecesCnt() && TWO_TO_32 % cfg.pieceSize == 0
    ensures cfg.DiskOffset(i) + cfg.PieceLen(i) <= TWO_TO_32
  {
    ChunkFits(cfg.torrentSize, cfg.pieceSize, i);
    hide CeilDiv, ChunkLen;
    var m, q := TWO_TO_32 / cfg.pieceSize, i * cfg.pieceSize / TWO_TO_32;
    assert m * cfg.pieceSize == TWO_TO_32;
    assert i * cfg.pieceSize == q * TWO_TO_32 + cfg.DiskOffset(i);
    MultipleBelow(cfg.pieceSize, m, i, q, cfg.DiskOffset(i));
  }

  lemma MultipleBelow(size: nat, m: nat, i: nat, q: nat, rest: nat)
    requires i * size == q * (m * size) + rest && rest < m * size
    ensures rest + size <= m * size
  {
    assert q * (m * size) == (q * m) * size;
    var r := i - q * m;
    assert r * size == rest;
    if r >= m {
      MulMono(m, r, size);
    } else {
      assert (r + 1) * size == r * size + size;
      if r + 1 < m {
        MulMono(r + 1, m, size);
      }
    }
  }

  lemma StepKeepsHighBlank(cfg: Config, s: State, e: Event, s': State)
    requires cfg.Ok() && Inv(cfg, s) && Step(cfg, s, e, s') && TWO_TO_32 % cfg.pieceSize == 0
    requires HighBytesBlank(s.disk)
    ensures HighBytesBlank(s'.disk)
  {
    hide IsPermutation, Ordered, CanYield, AdjustAvail, Reordered, NextBlock;
    hide InTorrent, CeilDiv, ChunkLen, HighBytesBlank;
    match e
    case BlockArrived(piece, block, offset) =>
      if piece in s.requested {
        RequestedPiece(cfg, s, piece);
        ReceiveOk(s.requested[piece], cfg.PieceLen(piece), block, offset);
        FinishKeepsHighBlank(cfg, s, piece, Receive(s.requested[piece], block, offset).data);
      }
    case _ => assert s'.disk == s.disk;
  }

  lemma FinishKeepsHighBlank(cfg: Config, s: State, piece: nat, data: seq<byte>)
    requires cfg.Ok() && piece < cfg.PiecesCnt() && |data| == cfg.PieceLen(piece)
    requires |s.completed| == cfg.PiecesCnt() && |s.disk| == cfg.torrentSize
    requires TWO_TO_32 % cfg.pieceSize == 0 && HighBytesBlank(s.disk)
    ensures HighBytesBlank(FinishPiece(cfg, s, piece, data).disk)
  {
    WriteStaysLow(cfg, piece);
    hide CeilDiv, ChunkLen, Config.DiskOffset, Config.Ok;
  }

  lemma {:induction false} RunKeepsHighBlank(cfg: Config, s: State, steps: seq<Transition>, t: State)
    requires cfg.Ok() && Inv(cfg, s) && Leads(cfg, s, steps, t) && TWO_TO_32 % cfg.pieceSize == 0
    requires HighBytesBlank(s.disk)
    ensures Inv(cfg, t) && HighBytesBlank(t.disk)
    decreases |steps|
  {
    hide Inv, Step, HighBytesBlank, Config.Ok;
    if steps != [] {
      StepKeepsInv(cfg, s, steps[0].event, steps[0].after);
      StepKeepsHighBlank(cfg, s, steps[0].event, steps[0].after);
      RunKeepsHighBlank(cfg, steps[0].after, steps[1..], t);
    }
  }

  /** If the piece size divides 2^32, as powers of two do, every completed piece beyond 2^32
      fails its check in every reachable state: no complete download is sound. */
  lemma WrappedPiecesNeverPass(cfg: Config, content: seq<seq<byte>>, steps: seq<Transition>, t: State)
    requires cfg.Ok() && Content(cfg, content) && TWO_TO_32 % cfg.pieceSize == 0 && Reachable(cfg, steps, t)
    ensures Inv(cfg, t)
    ensures forall i :: 0 <= i < |t.completed| && t.completed[i] && Wraps(cfg, i) ==>
      !cfg.Verified(cfg.Tile(t.disk, i), i)
    ensures t.left == 0 && !cfg.OffsetsFit() ==> !Sound(cfg, t)
  {
    InitInv(cfg);
    RunKeepsHighBlank(cfg, Init(cfg), steps, t);
    hide Leads, Init, CeilDiv, ChunkLen, Config.Ok, HighBytesBlank;
    StateSizes(cfg, t);
    forall i | 0 <= i < |t.completed| && Wraps(cfg, i) ensures !cfg.Verified(cfg.Tile(t.disk, i), i) {
      BlankTileFails(cfg, content, t.disk, i);
    }
    if t.left == 0 && !cfg.OffsetsFit() {
      LeftIsCount(cfg, t);
      AllTrue(t.completed);
      assert t.completed[cfg.PiecesCnt() - 1];
    }
  }

  lemma BlankTileFails(cfg: Config, content: seq<seq<byte>>, disk: seq<byte>, i: nat)
    requires cfg.Ok() && Content(cfg, content) && i < cfg.PiecesCnt() && Wraps(cfg, i)
    requires |disk| == cfg.torrentSize && HighBytesBlank(disk)
    ensures !cfg.Verified(cfg.Tile(disk, i), i)
  {
    assert PieceContent(cfg, i, content[i]);
    ChunkFits(cfg.torrentSize, cfg.pieceSize, i);
    hide CeilDiv, ChunkLen, Config.Ok;
    assert cfg.Tile(disk, i) == seq(|content[i]|, _ => 0);
  }

  // ----- one such torrent --------------------------------------------------

  /** 2^18 pieces of 16 KiB and one byte more. */
  function FourGiBAndAByte(): Config {
    Config(BLOCK_SIZE, TWO_TO_32 + 1, seq(5242900, _ => 0), 0, Digest)
  }

  function Full(): seq<byte> {
    seq(BLOCK_SIZE, _ => 2)
  }

  /** Passes the two contents of this torrent's pieces and nothing else. */
  function Digest(data: seq<byte>): seq<byte> {
    if data == [1] || data == Full() then seq(SHA1_SIZE, _ => 0) else []
  }

  lemma ItsPieces(i: nat)
    requires i <= 262144
    ensures var cfg := FourGiBAndAByte();
      && cfg.Ok() && cfg.PiecesCnt() == 262145
      && PieceContent(cfg, i, if i == 262144 then [1] else Full())
  {
    var cfg := FourGiBAndAByte();
    CeilDivUnique(TWO_TO_32 + 1, BLOCK_SIZE, 262145);
    assert cfg.RefHash(i) == seq(SHA1_SIZE, _ => 0);
    assert seq(1, _ => 0) == [0];
    assert Full()[0] == 2 != seq(BLOCK_SIZE, _ => 0)[0];
    assert |Full()| == BLOCK_SIZE > |[1]|;
  }

  /** Its last piece counts as completed and is not there, and having been written at
      offset 0 it destroys the first piece. */
  lemma FourGiBAndAByteIsLost()
    ensures var cfg := FourGiBAndAByte();
      && cfg.Ok() && cfg.PiecesCnt() == 262145
      && (exists steps, t :: Reachable(cfg, steps, t) && Lost(cfg, 262144, t) && !Sound(cfg, t))
      && (exists first, s, steps, t :: Reachable(cfg, first, s) && Destroys(cfg, 0, s, steps, t))
  {
    var cfg := FourGiBAndAByte();
    ItsPieces(0);
    ItsPieces(262144);
    CompletedPieceIsLost(cfg, 262144, [1]);
    var spoilt := TileAfter(cfg, Full(), 262144, [1], 0);
    assert spoilt[0] == 1 && spoilt[1] == 2;
    assert Digest(spoilt) == [];
    VerifiedPieceIsDestroyed(cfg, 0, Full(), 262144, [1]);
  }
}
