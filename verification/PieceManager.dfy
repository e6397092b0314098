/** The piece manager as the client runs it: a class over live Piece objects, two
    memory pools and the output files, each method proved against the engine's steps. */
module Manager {
  import opened Prelude
  import opened Layout
  import opened Pools
  import opened Files
  import opened Pieces
  import opened Engine
  import D = Download

  class PieceManager {
    const cfg: Config
    const maxActiveRequests: nat
    const piecesCnt: nat
    const fileManager: FileManager
    const dataPool: MemoryPool
    const utilPool: MemoryPool
    var piecesLeft: int
    var pieceCompleted: seq<bool>
    var pieceAvail: seq<uint16>
    var requested: map<nat, Piece>
    var sortedPieces: seq<nat>
    var arePiecesSorted: bool
    var completionFlag: bool
    var endgame: bool
    var endgameRequests: seq<Block>

    ghost function Model(): State
      requires PiecesOk()
      reads this, requested.Values, fileManager, fileManager.files
    {
      State(pieceCompleted, piecesLeft, pieceAvail, InProgress(), sortedPieces,
            arePiecesSorted, completionFlag, endgame, endgameRequests, fileManager.Flat())
    }

    ghost function InProgress(): map<nat, PieceState>
      requires PiecesOk()
      reads this`requested, requested.Values
    {
      map p | p in requested :: requested[p].State()
    }

    /** Every piece in progress is a well-formed object of its own. */
    ghost predicate PiecesOk()
      reads this`requested, requested.Values
    {
      && (forall p :: p in requested ==> requested[p].Valid() && requested[p].timeout == cfg.timeout)
      && (forall p, q :: p in requested && q in requested && p != q ==> requested[p] != requested[q])
    }

    /** The pools hold the storage of exactly the pieces in progress: what is left
        over is enough for every piece that may still be started. */
    ghost predicate PoolsOk()
      reads this`requested, dataPool, dataPool.pool, utilPool, utilPool.pool
    {
      && PoolsApart(dataPool, utilPool)
      && dataPool.freeBlocks == maxActiveRequests - |requested|
      && utilPool.freeBlocks == 2 * (maxActiveRequests - |requested|)
      && (forall p :: p in requested ==> StorageLive(requested[p]))
      && (forall p, q :: p in requested && q in requested && p != q ==>
            StorageApart(requested[p].storage, requested[q].storage))
    }

    /** Each piece's data is what its pool block holds. */
    ghost predicate BytesOk()
      reads this`requested, requested.Values, dataPool.pool
    {
      forall p :: p in requested ==> requested[p].Backed(dataPool)
    }

    /** ... and its index vectors are what the other two hold. */
    ghost predicate WordsOk()
      reads this`requested, requested.Values, utilPool.pool
    {
      forall p :: p in requested ==> requested[p].Indexed(utilPool)
    }

    ghost predicate StorageLive(p: Piece)
      reads dataPool, utilPool
    {
      && p.PointsInto(dataPool, utilPool)
      && dataPool.Live(p.storage.data)
      && utilPool.Live(p.storage.remaining) && utilPool.Live(p.storage.position)
      && p.storage.remaining != p.storage.position
    }

    ghost predicate StorageApart(a: Storage, b: Storage) {
      && a.data != b.data
      && {a.remaining, a.position} !! {b.remaining, b.position}
    }

    ghost predicate SizesOk() {
      && cfg.Ok() && maxActiveRequests == cfg.Cap() && piecesCnt == cfg.PiecesCnt()
      && TotalLength(fileManager.infos) == cfg.torrentSize
      && dataPool.alignedBlockSize == NextAligned(cfg.pieceSize)
      && utilPool.alignedBlockSize == NextAligned(BlocksIn(cfg.pieceSize) * SIZEOF_UINT16)
    }

    ghost predicate ShapeOk()
      reads this`requested, requested.Values, dataPool, dataPool.pool, utilPool, utilPool.pool
      reads fileManager, fileManager.files
    {
      SizesOk() && fileManager.Valid() && PiecesOk() && PoolsOk() && BytesOk() && WordsOk()
    }

    ghost predicate Valid()
      reads this, requested.Values, dataPool, dataPool.pool, utilPool, utilPool.pool
      reads fileManager, fileManager.files
      ensures Valid() ==> PiecesOk()
    {
      ShapeOk() && Inv(cfg, Model())
    }

    constructor (cfg: Config, fileManager: FileManager)
      requires cfg.Ok() && fileManager.Valid() && TotalLength(fileManager.infos) == cfg.torrentSize
      requires fileManager.Flat() == seq(cfg.torrentSize, _ => 0)
      ensures Valid() && Model() == Init(cfg)
      ensures this.cfg == cfg && this.fileManager == fileManager
      ensures fresh(dataPool) && fresh(dataPool.pool) && fresh(utilPool) && fresh(utilPool.pool)
      ensures PoolsSized(cfg.pieceSize, dataPool, utilPool)
    {
      var cap := CeilDiv(MAX_MEMPOOL_SIZE, cfg.pieceSize);
      var n := CeilDiv(cfg.torrentSize, cfg.pieceSize);
      CapFits(cfg);
      NeedsBlocks(cfg);
      this.cfg := cfg;
      maxActiveRequests := cap;
      piecesCnt := n;
      piecesLeft := n;
      this.fileManager := fileManager;
      dataPool := new MemoryPool(cfg.pieceSize, cap);
      utilPool := new MemoryPool(CeilDiv(cfg.pieceSize, BLOCK_SIZE) * SIZEOF_UINT16, 2 * cap);
      pieceCompleted := seq(n, _ => false);
      pieceAvail := seq(n, _ => 0);
      requested := map[];
      sortedPieces := Iota(n);
      arePiecesSorted, completionFlag, endgame, endgameRequests := false, false, false, [];
      new;
      hide *;
      InitialState();
      CapSizesPools(cfg, dataPool, utilPool);
    }

    lemma InitialState()
      requires cfg.Ok() && fileManager.Valid() && TotalLength(fileManager.infos) == cfg.torrentSize
      requires fileManager.Flat() == seq(cfg.torrentSize, _ => 0)
      requires maxActiveRequests == cfg.Cap() && piecesCnt == cfg.PiecesCnt() && piecesLeft == piecesCnt
      requires PoolsApart(dataPool, utilPool) && requested == map[]
      requires dataPool.alignedBlockSize == NextAligned(cfg.pieceSize)
      requires utilPool.alignedBlockSize == NextAligned(BlocksIn(cfg.pieceSize) * SIZEOF_UINT16)
      requires dataPool.freeBlocks == maxActiveRequests && utilPool.freeBlocks == 2 * maxActiveRequests
      requires pieceCompleted == seq(piecesCnt, _ => false) && pieceAvail == seq(piecesCnt, _ => 0)
      requires sortedPieces == Iota(piecesCnt) && !arePiecesSorted && !completionFlag && !endgame
      requires endgameRequests == []
      ensures Valid() && Model() == Init(cfg)
    {
      hide CeilDiv, NextAligned, ChunkLen, FileManager.Valid, FileManager.Flat, MemoryPool.Valid, MemoryPool.Free;
      D.InitInv(cfg);
      assert InProgress() == map[];
    }

    /** What a method that only touches plain fields needs to know on entry ... */
    lemma Unfold()
      requires Valid()
      ensures ShapeOk() && PiecesOk() && cfg.Ok() && Inv(cfg, Model())
      ensures |pieceAvail| == |pieceCompleted| == piecesCnt == cfg.PiecesCnt()
      ensures Model() == State(pieceCompleted, piecesLeft, pieceAvail, InProgress(), sortedPieces, arePiecesSorted,
                         completionFlag, endgame, endgameRequests, fileManager.Flat())
    {
    }

    /** The part of the model that is not kept in other objects. */
    ghost predicate SameFields(s: State)
      reads this
    {
      && s.completed == pieceCompleted && s.left == piecesLeft && s.avail == pieceAvail
      && s.sorted == sortedPieces && s.isSorted == arePiecesSorted && s.flag == completionFlag
      && s.endgame == endgame && s.endgameRequests == endgameRequests
    }

    lemma FieldsAre(s: State)
      ensures SameFields(s) <==>
        && s.completed == pieceCompleted && s.left == piecesLeft && s.avail == pieceAvail
        && s.sorted == sortedPieces && s.isSorted == arePiecesSorted && s.flag == completionFlag
        && s.endgame == endgame && s.endgameRequests == endgameRequests
    {
    }

    /** ... and what it proves on exit. */
    lemma Fold(s: State)
      requires ShapeOk() && PiecesOk() && cfg.Ok() && Inv(cfg, s)
      requires s.requested == InProgress() && s.disk == fileManager.Flat()
      requires s.completed == pieceCompleted && s.left == piecesLeft && s.avail == pieceAvail
      requires s.sorted == sortedPieces && s.isSorted == arePiecesSorted && s.flag == completionFlag
      requires s.endgame == endgame && s.endgameRequests == endgameRequests
      ensures Valid() && Model() == s
    {
    }

    lemma ConfigOk()
      requires Valid()
      ensures cfg.Ok() && piecesCnt == cfg.PiecesCnt()
    {
    }

    lemma ShapeParts()
      requires ShapeOk()
      ensures SizesOk() && cfg.Ok() && fileManager.Valid() && PiecesOk() && PoolsOk() && BytesOk() && WordsOk()
    {
    }

    lemma ShapeFromParts()
      requires SizesOk() && fileManager.Valid() && PiecesOk() && PoolsOk() && BytesOk() && WordsOk()
      ensures ShapeOk()
    {
    }

    // ----- availability ----------------------------------------------------

    method UpdatePiecesAvailability(bits: seq<bool>, sign: int)
      requires Valid() && piecesCnt <= |bits| && (sign == 1 || sign == -1)
      modifies this`pieceAvail, this`arePiecesSorted
      ensures Valid() && Model() == CountPeer(cfg, old(Model()), bits, sign)
    {
      hide *;
      Unfold();
      ghost var s := Model();
      var avail, setBits := CountBits(pieceAvail, bits, sign);
      pieceAvail, arePiecesSorted := avail, arePiecesSorted && setBits == 0;
      CountPeerIs(s, bits, sign);
      Fold(CountPeer(cfg, s, bits, sign));
    }

    lemma CountPeerIs(s: State, bits: seq<bool>, sign: int)
      requires cfg.Ok() && Inv(cfg, s) && cfg.PiecesCnt() <= |bits|
      ensures |s.avail| <= |bits|
      ensures CountPeer(cfg, s, bits, sign)
           == s.(avail := AdjustAvail(s.avail, bits, sign), isSorted := s.isSorted && !AnyBit(bits, |s.avail|))
      ensures Inv(cfg, CountPeer(cfg, s, bits, sign))
    {
      D.PeerKeepsInv(cfg, s, bits, sign);
    }

    static method CountBits(avail: seq<uint16>, bits: seq<bool>, sign: int) returns (r: seq<uint16>, setBits: nat)
      requires |avail| <= |bits| && (sign == 1 || sign == -1)
      ensures r == AdjustAvail(avail, bits, sign)
      ensures setBits == 0 <==> !AnyBit(bits, |avail|)
    {
      r, setBits := avail, 0;
      for i := 0 to |avail|
        invariant |r| == |avail|
        invariant forall k :: 0 <= k < i ==> r[k] == AdjustAvail(avail, bits, sign)[k]
        invariant forall k :: i <= k < |avail| ==> r[k] == avail[k]
        invariant setBits == 0 <==> forall k :: 0 <= k < i ==> !bits[k]
      {
        var bit := if bits[i] then 1 else 0;
        r := r[i := (r[i] + sign * bit) % TWO_TO_16];
        setBits := setBits + bit;
      }
    }

    /** One more peer has the piece: a binary search, a backward walk and one swap are meant
        to keep the order without sorting again.  `beyond` is what the search reads where the
        counters end. */
    method AddAvailablePiece(piece: nat, beyond: uint16)
      requires Valid() && piece < |pieceAvail|
      modifies this`pieceAvail, this`sortedPieces
      ensures Valid() && CountsOneMore(old(Model()), piece, Model())
    {
      hide *;
      Unfold();
      ghost var s := Model();
      var avail, order := Raised(s, piece, beyond);
      pieceAvail, sortedPieces := avail, order;
      Fold(s.(avail := avail, sorted := order));
    }

    /** The counters and the order once the piece's availability has grown. */
    method Raised(ghost s: State, piece: nat, beyond: uint16) returns (avail: seq<uint16>, order: seq<nat>)
      requires cfg.Ok() && Inv(cfg, s) && piece < |pieceAvail|
      requires s.sorted == sortedPieces && s.avail == pieceAvail && s.isSorted == arePiecesSorted
      ensures CountsOneMore(s, piece, s.(avail := avail, sorted := order))
      ensures Inv(cfg, s.(avail := avail, sorted := order))
    {
      avail := pieceAvail[piece := (pieceAvail[piece] + 1) % TWO_TO_16];
      order := sortedPieces;
      if arePiecesSorted {
        order := MoveUp(sortedPieces, pieceAvail, piece, beyond);
      }
      CountedOneMore(s, piece, avail, order);
    }

    lemma CountedOneMore(s: State, piece: nat, avail: seq<uint16>, order: seq<nat>)
      requires cfg.Ok() && Inv(cfg, s) && piece < |s.avail|
      requires avail == s.avail[piece := (s.avail[piece] + 1) % TWO_TO_16] && InRange(s.sorted, |s.avail|)
      requires if s.isSorted then Reordered(s.sorted, order, s.avail, piece) else order == s.sorted
      ensures var s' := s.(avail := avail, sorted := order);
        CountsOneMore(s, piece, s') && Inv(cfg, s')
    {
      D.HaveKeepsInv(cfg, s, piece, s.(avail := avail, sorted := order));
    }

    static method MoveUp(s: seq<nat>, avail: seq<uint16>, piece: nat, beyond: uint16) returns (s': seq<nat>)
      requires piece < |avail| && InRange(s, |avail|)
      ensures Reordered(s, s', avail, piece)
    {
      var v := avail[piece];
      var w := if v < |avail| then avail[v] else beyond;
      var bound := UpperBound(s, avail, w);
      s' := s;
      if bound > 0 {
        var last := bound - 1;
        var walk := last;
        while walk > 0 && s[walk] != piece
          invariant walk <= last && WalkBack(s, piece, walk) == WalkBack(s, piece, last)
        {
          walk := walk - 1;
        }
        s' := s[walk := s[last]][last := s[walk]];
      }
      assert ReorderedAt(s, s', avail, piece, w, bound);
    }

    /** Binary search for a position where availability begins to exceed w; in an ordered
        list it is the first one. */
    static method UpperBound(s: seq<nat>, avail: seq<uint16>, w: int) returns (bound: nat)
      requires InRange(s, |avail|) && w >= 0
      ensures Boundary(s, avail, w, bound)
      ensures Ordered(s, avail) ==> forall k :: 0 <= k < |s| ==> (avail[s[k]] <= w <==> k < bound)
    {
      bound := 0;
      var len := |s|;
      while len > 0
        invariant 0 <= len && bound + len <= |s|
        invariant bound > 0 ==> avail[s[bound - 1]] <= w
        invariant bound + len < |s| ==> avail[s[bound + len]] > w
      {
        var half := len / 2;
        if w < avail[s[bound + half]] {
          len := half;
        } else {
          bound, len := bound + half + 1, len - half - 1;
        }
      }
    }

    // ----- progress --------------------------------------------------------

    /** Completed means every piece is. */
    method Completed() returns (done: bool)
      requires Valid()
      ensures done <==> false !in Model().completed
    {
      hide *;
      LeftCountsIncomplete();
      D.AllTrue(Model().completed);
      done := piecesLeft == 0;
    }

    lemma LeftCountsIncomplete()
      requires Valid()
      ensures piecesLeft == Model().left == CountFalse(Model().completed) && cfg.Ok()
      ensures piecesCnt == |Model().completed| == cfg.PiecesCnt()
    {
    }

    method GetDownloadedBytes() returns (n: int)
      requires Valid()
      ensures cfg.Ok() && n == D.DownloadedBytes(cfg, Model())
    {
      hide *;
      Unfold();
      LeftCountsIncomplete();
      BytesAre();
      n := (piecesCnt - piecesLeft) * cfg.pieceSize;
    }

    lemma BytesAre()
      requires PiecesOk() && cfg.Ok() && piecesCnt == cfg.PiecesCnt() && Model().left == piecesLeft
      ensures (piecesCnt - piecesLeft) * cfg.pieceSize == D.DownloadedBytes(cfg, Model())
    {
      hide CeilDiv, InProgress;
    }

    // ----- receiving a block -----------------------------------------------

    function IsBlockReceived(piece: nat, offset: nat): (r: bool)
      requires Valid() && cfg.Ok() && piece < cfg.PiecesCnt() && offset < cfg.PieceLen(piece)
      reads this, requested.Values, dataPool, dataPool.pool, utilPool, utilPool.pool
      reads fileManager, fileManager.files
      ensures piece < |Model().completed| && (r <==> IsReceived(cfg, Model(), piece, offset))
    {
      BlockIndexOk(piece, offset);
      pieceCompleted[piece]
      || (piece in requested && requested[piece].IsBlockReceived(offset / BLOCK_SIZE))
    }

    lemma BlockIndexOk(piece: nat, offset: nat)
      requires Valid() && cfg.Ok() && piece < cfg.PiecesCnt() && offset < cfg.PieceLen(piece)
      ensures piece < |pieceCompleted| && Model().completed == pieceCompleted
      ensures piece in requested <==> piece in Model().requested
      ensures piece in requested ==>
        && requested[piece].Valid() && offset / BLOCK_SIZE < requested[piece].blocksCnt
        && Model().requested[piece] == requested[piece].State()
    {
      if piece in requested {
        RequestedPiece(cfg, Model(), piece);
        BlockOfOffset(requested[piece].pieceSize, offset);
      }
    }

    /** Blocks of pieces not in progress are ignored; the last block of a piece decides
        whether the piece is written out or thrown away. */
    method ReceiveBlock(piece: nat, block: seq<byte>, offset: nat)
      requires Valid()
      requires piece in requested ==> Arrives(requested[piece].State(), offset, |block|)
      modifies this, requested.Values, fileManager.files
      modifies dataPool, dataPool.pool, utilPool, utilPool.pool
      ensures Valid() && requested.Values <= old(requested.Values)
      ensures ArrivalOk(old(Model()), piece, offset, |block|)
      ensures Model() == AcceptBlock(cfg, old(Model()), piece, block, offset)
    {
      hide *;
      Unfold();
      ghost var s := Model();
      ArrivalIsOk(piece, offset, |block|);
      PieceIsValid(piece);
      if piece !in requested {
        AcceptIs(s, piece, block, offset);
        return;
      }
      var p := requested[piece];
      ghost var q := Receive(s.requested[piece], block, offset);
      AcceptIs(s, piece, block, offset);
      FieldsAre(s);
      ShapeParts();
      StorageOf(piece);
      BytesOf(piece);
      WordsOf(piece);
      p.ReceiveBlock(block, offset, dataPool, utilPool);
      PieceChanged(piece);
      PoolsKept();
      BytesReceived(piece);
      WordsReceived(piece);
      ShapeFromParts();
      if !p.IsComplete() {
        Fold(s.(requested := s.requested[piece := q]));
        return;
      }
      FinishPiece(piece, s, q);
      FieldsAre(Engine.FinishPiece(cfg, s, piece, q.data));
      Fold(Engine.FinishPiece(cfg, s, piece, q.data));
    }

    lemma AcceptIs(s: State, piece: nat, block: seq<byte>, offset: nat)
      requires cfg.Ok() && Inv(cfg, s) && ArrivalOk(s, piece, offset, |block|)
      ensures Inv(cfg, AcceptBlock(cfg, s, piece, block, offset))
      ensures piece !in s.requested ==> AcceptBlock(cfg, s, piece, block, offset) == s
      ensures piece in s.requested ==> RequestedOk(cfg, s, piece)
      ensures piece in s.requested ==>
        var q := Receive(s.requested[piece], block, offset);
        && PieceOk(q, cfg.PieceLen(piece))
        && AcceptBlock(cfg, s, piece, block, offset)
           == if q.open != [] then s.(requested := s.requested[piece := q])
               else Engine.FinishPiece(cfg, s, piece, q.data)
    {
      D.ArrivalKeepsInv(cfg, s, piece, block, offset);
      if piece in s.requested {
        RequestedPiece(cfg, s, piece);
        ReceiveOk(s.requested[piece], cfg.PieceLen(piece), block, offset);
      }
    }

    /** The piece is complete: check it, write it if it is good, free it in either case. */
    method FinishPiece(piece: nat, ghost s: State, ghost q: PieceState)
      requires ShapeOk() && PiecesOk() && cfg.Ok() && Inv(cfg, s) && piece in s.requested
      requires RequestedOk(cfg, s, piece) && PieceOk(q, cfg.PieceLen(piece))
      requires piece in requested && requested[piece].Valid() && requested[piece].State() == q
      requires InProgress() == s.requested[piece := q] && s.disk == fileManager.Flat()
      requires SameFields(s)
      modifies this`requested, this`pieceCompleted, this`piecesLeft, this`completionFlag
      modifies fileManager.files, dataPool, dataPool.pool, utilPool, utilPool.pool
      ensures ShapeOk() && PiecesOk() && requested == old(requested) - {piece}
      ensures var t := Engine.FinishPiece(cfg, s, piece, q.data);
        && t.requested == InProgress() && t.disk == fileManager.Flat()
        && SameFields(t)
    {
      hide *;
      FieldsAre(s);
      FinishIs(s, piece, q);
      var data := PieceBytes(piece);
      Settle(piece, data, s);
      Erase(piece, s.requested, q);
      FieldsAre(Engine.FinishPiece(cfg, s, piece, q.data));
    }

    /** The piece's data, read from its pool block. */
    method PieceBytes(piece: nat) returns (data: seq<byte>)
      requires ShapeOk() && PiecesOk() && piece in requested && requested[piece].Valid()
      ensures data == requested[piece].State().data
    {
      hide *;
      ShapeParts();
      PieceIsValid(piece);
      StorageOf(piece);
      BytesOf(piece);
      var p := requested[piece];
      data := dataPool.ReadBlock(p.dataPtr.value, p.storage.data, p.pieceSize);
    }

    lemma FinishIs(s: State, piece: nat, q: PieceState)
      requires cfg.Ok() && Inv(cfg, s) && piece in s.requested && RequestedOk(cfg, s, piece)
      requires PieceOk(q, cfg.PieceLen(piece))
      ensures |s.completed| == cfg.PiecesCnt() && piece < cfg.PiecesCnt()
      ensures |s.disk| == cfg.torrentSize && |q.data| == cfg.PieceLen(piece)
      ensures var t := Engine.FinishPiece(cfg, s, piece, q.data);
        && t.avail == s.avail && t.requested == s.requested - {piece} && t.sorted == s.sorted
        && t.isSorted == s.isSorted && t.endgame == s.endgame && t.endgameRequests == s.endgameRequests
    {
    }

    /** Checks the data against the recorded digest and, if it matches, writes it out. */
    method Settle(piece: nat, data: seq<byte>, ghost s: State)
      requires ShapeOk() && piece < |pieceCompleted| == cfg.PiecesCnt() && |data| == cfg.PieceLen(piece)
      requires s.completed == pieceCompleted && s.left == piecesLeft && s.flag == completionFlag
      requires |s.disk| == cfg.torrentSize && s.disk == fileManager.Flat()
      modifies this`pieceCompleted, this`piecesLeft, this`completionFlag, fileManager.files
      ensures ShapeOk()
      ensures var t := Engine.FinishPiece(cfg, s, piece, data);
        && t.completed == pieceCompleted && t.left == piecesLeft && t.flag == completionFlag
        && t.disk == fileManager.Flat()
    {
      hide PiecesOk, PoolsOk, BytesOk, WordsOk, FileManager.Flat, FileManager.Valid, Splice;
      hide ToUint32, CeilDiv, ChunkLen, NextAligned;
      WriteFits(cfg, piece);
      if cfg.digest(data) != cfg.RefHash(piece) {
        pieceCompleted := pieceCompleted[piece := false];
      } else {
        WriteToDisk(data, piece);
        pieceCompleted := pieceCompleted[piece := true];
        completionFlag := completionFlag || piecesLeft == 1;
        piecesLeft := piecesLeft - 1;
      }
    }

    method WriteToDisk(data: seq<byte>, piece: nat)
      requires ShapeOk() && piece < piecesCnt && |data| == cfg.PieceLen(piece)
      modifies fileManager.files
      ensures ShapeOk()
      ensures |old(fileManager.Flat())| == cfg.torrentSize && cfg.DiskOffset(piece) + |data| <= cfg.torrentSize
      ensures fileManager.Flat() == Splice(old(fileManager.Flat()), cfg.DiskOffset(piece), data)
    {
      hide ToUint32, CeilDiv, ChunkLen, PoolsOk, BytesOk, WordsOk, PiecesOk;
      hide FileManager.Flat, FileManager.Valid;
      WriteFits(cfg, piece);
      ChunkFits(cfg.torrentSize, cfg.pieceSize, piece);
      assert fileManager.infos != [];
      assert fileManager.files != [] by { FilesNonEmpty(); }
      fileManager.Write(data, cfg.DiskOffset(piece));
    }

    lemma FilesNonEmpty()
      requires fileManager.Valid() && fileManager.infos != []
      ensures fileManager.files != []
    {
    }

    /** Erasing a piece runs its destructor, which gives its storage back to the pools. */
    method Erase(piece: nat, ghost m: map<nat, PieceState>, ghost q: PieceState)
      requires ShapeOk() && PiecesOk() && piece in requested && InProgress() == m[piece := q]
      modifies this`requested, dataPool, dataPool.pool, utilPool, utilPool.pool
      ensures ShapeOk() && PiecesOk() && requested == old(requested) - {piece}
      ensures InProgress() == m - {piece}
    {
      hide *;
      ShapeParts();
      StorageOf(piece);
      var p := requested[piece];
      p.Release(dataPool, utilPool);
      requested := requested - {piece};
      PieceErased(piece);
      StorageErased(piece);
      BytesErased(piece);
      WordsErased(piece);
      ShapeFromParts();
      UpdateThenErase(m, piece, q);
    }

    static lemma UpdateThenErase(m: map<nat, PieceState>, piece: nat, q: PieceState)
      ensures m[piece := q] - {piece} == m - {piece}
    {
    }

    lemma StorageOf(piece: nat)
      requires PoolsOk() && piece in requested
      ensures var p := requested[piece];
        && PoolsApart(dataPool, utilPool) && p.PointsInto(dataPool, utilPool)
        && dataPool.Live(p.storage.data)
        && utilPool.Live(p.storage.remaining) && utilPool.Live(p.storage.position)
        && p.storage.remaining != p.storage.position
        && dataPool.Valid() && dataPool.SizesOk() && p.storage.data < dataPool.blockCount
        && p.dataPtr == Some(dataPool.AddrFromIndex(p.storage.data))
        && utilPool != dataPool && utilPool.pool != dataPool.pool
    {
      assert StorageLive(requested[piece]);
    }

    lemma BytesOf(piece: nat)
      requires BytesOk() && piece in requested
      ensures var p := requested[piece];
        && p.Backed(dataPool) && dataPool.SizesOk()
        && p.storage.data < dataPool.blockCount && p.pieceSize <= dataPool.alignedBlockSize
        && dataPool.BlockBytes(p.storage.data)[..p.pieceSize] == p.pieceData
    {
    }

    lemma WordsOf(piece: nat)
      requires WordsOk() && piece in requested
      ensures requested[piece].Indexed(utilPool)
    {
    }

    /** Writing into live blocks leaves the pools as they are. */
    twostate lemma PoolsKept()
      requires old(PoolsOk()) && requested == old(requested)
      requires dataPool.Valid() && utilPool.Valid() && unchanged(dataPool) && unchanged(utilPool)
      ensures PoolsOk()
    {
      hide MemoryPool.Valid, MemoryPool.Free;
      forall p | p in requested ensures StorageLive(requested[p]) {
        assert old(StorageLive(requested[p]));
      }
    }

    twostate lemma BytesReceived(piece: nat)
      requires old(PoolsOk()) && old(BytesOk()) && requested == old(requested) && piece in requested
      requires forall p :: p in requested && p != piece ==> unchanged(requested[p])
      requires requested[piece].Backed(dataPool) && dataPool.KeepsOthers(requested[piece].storage.data)
      ensures BytesOk()
    {
      hide MemoryPool.Valid, MemoryPool.Free, MemoryPool.BlockBytes, Piece.PointsInto;
      forall p | p in requested ensures requested[p].Backed(dataPool) {
        if p != piece {
          assert old(requested[p].Backed(dataPool));
          assert old(StorageApart(requested[p].storage, requested[piece].storage));
        }
      }
    }

    twostate lemma BytesErased(piece: nat)
      requires old(PoolsOk()) && old(BytesOk()) && requested == old(requested) - {piece}
      requires forall p :: p in requested ==> unchanged(requested[p])
      requires PoolsOk() && dataPool.KeepsLive()
      ensures BytesOk()
    {
      hide MemoryPool.Valid, MemoryPool.Free, MemoryPool.BlockBytes, Piece.PointsInto;
      forall p | p in requested ensures requested[p].Backed(dataPool) {
        assert old(requested[p].Backed(dataPool));
        assert old(StorageLive(requested[p])) && StorageLive(requested[p]);
      }
    }

    twostate lemma BytesStarted(piece: nat)
      requires old(PoolsOk()) && old(BytesOk()) && piece !in old(requested) && piece in requested
      requires requested == old(requested)[piece := requested[piece]]
      requires forall p :: p in old(requested) ==> unchanged(old(requested)[p])
      requires requested[piece].Backed(dataPool) && PoolsOk() && dataPool.KeepsLive()
      ensures BytesOk()
    {
      hide MemoryPool.Valid, MemoryPool.Free, MemoryPool.BlockBytes, Piece.PointsInto;
      forall p | p in requested ensures requested[p].Backed(dataPool) {
        if p != piece {
          assert old(requested[p].Backed(dataPool));
          assert old(StorageLive(requested[p])) && StorageLive(requested[p]);
        }
      }
    }

    twostate lemma BytesAsked(piece: nat)
      requires old(BytesOk()) && requested == old(requested) && piece in requested
      requires forall p :: p in requested && p != piece ==> unchanged(requested[p])
      requires unchanged(dataPool.pool) && requested[piece].pieceData == old(requested[piece].pieceData)
      ensures BytesOk()
    {
      hide Piece.Valid, MemoryPool.BlockBytes;
      forall p | p in requested ensures requested[p].Backed(dataPool) {
        assert old(requested[p].Backed(dataPool));
      }
    }

    twostate lemma WordsReceived(piece: nat)
      requires old(PoolsOk()) && old(WordsOk()) && requested == old(requested) && piece in requested
      requires forall p :: p in requested && p != piece ==> unchanged(requested[p])
      requires requested[piece].Indexed(utilPool)
      requires var st := requested[piece].storage; KeepsOtherTwo(utilPool, st.remaining, st.position)
      ensures WordsOk()
    {
      hide MemoryPool.Valid, MemoryPool.Free, MemoryPool.BlockBytes, Piece.PointsInto, Words;
      forall p | p in requested ensures requested[p].Indexed(utilPool) {
        if p != piece {
          assert old(requested[p].Indexed(utilPool));
          assert old(StorageApart(requested[p].storage, requested[piece].storage));
          assert p in old(requested) && old(StorageLive(requested[p]));
          ghost var st := requested[p].storage;
          assert utilPool.BlockBytes(st.remaining) == old(utilPool.BlockBytes(st.remaining));
          assert utilPool.BlockBytes(st.position) == old(utilPool.BlockBytes(st.position));
        }
      }
    }

    twostate lemma WordsErased(piece: nat)
      requires old(PoolsOk()) && old(WordsOk()) && requested == old(requested) - {piece}
      requires forall p :: p in requested ==> unchanged(requested[p])
      requires PoolsOk() && utilPool.KeepsLive()
      ensures WordsOk()
    {
      hide MemoryPool.Valid, MemoryPool.Free, MemoryPool.BlockBytes, Piece.PointsInto, Words;
      forall p | p in requested ensures requested[p].Indexed(utilPool) {
        assert old(requested[p].Indexed(utilPool));
        assert old(StorageLive(requested[p])) && StorageLive(requested[p]);
      }
    }

    twostate lemma WordsStarted(piece: nat)
      requires old(PoolsOk()) && old(WordsOk()) && piece !in old(requested) && piece in requested
      requires requested == old(requested)[piece := requested[piece]]
      requires forall p :: p in old(requested) ==> unchanged(old(requested)[p])
      requires requested[piece].Indexed(utilPool) && PoolsOk() && utilPool.KeepsLive()
      ensures WordsOk()
    {
      hide MemoryPool.Valid, MemoryPool.Free, MemoryPool.BlockBytes, Piece.PointsInto, Words;
      forall p | p in requested ensures requested[p].Indexed(utilPool) {
        if p != piece {
          assert old(requested[p].Indexed(utilPool));
          assert old(StorageLive(requested[p])) && StorageLive(requested[p]);
        }
      }
    }

    twostate lemma WordsAsked(piece: nat)
      requires old(WordsOk()) && requested == old(requested) && piece in requested
      requires forall p :: p in requested && p != piece ==> unchanged(requested[p])
      requires unchanged(utilPool.pool)
      requires requested[piece].remainingBlocks == old(requested[piece].remainingBlocks)
      requires requested[piece].blockPosInRem == old(requested[piece].blockPosInRem)
      ensures WordsOk()
    {
      hide Piece.Valid, MemoryPool.BlockBytes, Words;
      forall p | p in requested ensures requested[p].Indexed(utilPool) {
        assert old(requested[p].Indexed(utilPool));
      }
    }

    twostate lemma PieceErased(piece: nat)
      requires old(PiecesOk()) && requested == old(requested) - {piece}
      requires forall p :: p in requested ==> unchanged(requested[p])
      ensures PiecesOk() && InProgress() == old(InProgress()) - {piece}
    {
      hide Piece.Valid, Piece.State;
    }

    twostate lemma StorageErased(piece: nat)
      requires old(PoolsOk()) && piece in old(requested) && requested == old(requested) - {piece}
      requires dataPool.Valid() && utilPool.Valid()
      requires dataPool.freeBlocks == old(dataPool.freeBlocks) + 1
      requires utilPool.freeBlocks == old(utilPool.freeBlocks) + 2
      requires Returned(old(requested)[piece].storage, old(dataPool.Free()), dataPool.Free(),
                        old(utilPool.Free()), utilPool.Free())
      ensures PoolsOk()
    {
      hide MemoryPool.Valid, MemoryPool.Free, MemoryPool.AddrFromIndex;
      assert requested.Keys == old(requested).Keys - {piece};
      forall p | p in requested ensures StorageLive(requested[p]) {
        assert old(StorageLive(requested[p]));
        assert StorageApart(requested[p].storage, old(requested)[piece].storage);
      }
    }

    ghost predicate ArrivalOk(s: State, piece: nat, offset: nat, n: nat)
      requires cfg.Ok()
    {
      piece in s.requested ==> piece < cfg.PiecesCnt() && Arrives(s.requested[piece], offset, n)
    }

    lemma ArrivalIsOk(piece: nat, offset: nat, n: nat)
      requires Valid()
      requires piece in requested ==> Arrives(requested[piece].State(), offset, n)
      ensures ArrivalOk(Model(), piece, offset, n)
      ensures piece in Model().requested && offset / BLOCK_SIZE in Model().requested[piece].open ==>
        offset + n <= |Model().requested[piece].data|
    {
      if piece in requested {
        assert RequestedOk(cfg, Model(), piece);
      }
    }

    lemma PieceIsValid(piece: nat)
      requires PiecesOk()
      ensures piece in requested <==> piece in InProgress()
      ensures piece in requested ==> requested[piece].Valid() && InProgress()[piece] == requested[piece].State()
      ensures piece in requested ==>
        var p := requested[piece];
        && p.State().data == p.pieceData && p.State().size == p.pieceSize && p.timeout == cfg.timeout
        && p.blocksLeft <= |p.remainingBlocks| && p.State().open == p.remainingBlocks[..p.blocksLeft]
        && NoDup(p.State().open)
    {
    }

    /** Only the named piece changed: the others are distinct objects. */
    twostate lemma PieceChanged(piece: nat)
      requires old(PiecesOk()) && requested == old(requested) && piece in requested
      requires requested[piece].Valid()
      requires forall p :: p in requested && p != piece ==> unchanged(requested[p])
      ensures PiecesOk() && InProgress() == old(InProgress())[piece := requested[piece].State()]
    {
      hide Piece.Valid, Piece.State;
    }

    // ----- choosing the next block -----------------------------------------

    /** Starts a piece: its three allocations succeed because the pools have room for
        every piece below the cap. */
    method StartPiece(piece: nat)
      requires ShapeOk() && PiecesOk()
      requires piece < piecesCnt && piece !in requested && |requested| < maxActiveRequests
      modifies this`requested, dataPool, dataPool.pool, utilPool, utilPool.pool
      ensures ShapeOk() && PiecesOk() && cfg.Ok() && piece < cfg.PiecesCnt()
      ensures piece in requested && requested == old(requested)[piece := requested[piece]]
      ensures fresh(requested[piece])
      ensures InProgress() == old(InProgress())[piece := FreshPiece(cfg.PieceLen(piece))]
    {
      hide *;
      ShapeParts();
      var size := if piece == piecesCnt - 1 then 1 + (cfg.torrentSize - 1) % cfg.pieceSize else cfg.pieceSize;
      RoomForPiece(piece);
      var p := new Piece(size, dataPool, utilPool, cfg.timeout);
      requested := requested[piece := p];
      PieceStarted(piece);
      StorageStarted(piece);
      BytesStarted(piece);
      WordsStarted(piece);
      ShapeFromParts();
    }

    lemma RoomForPiece(piece: nat)
      requires SizesOk() && PoolsOk() && piece < piecesCnt && |requested| < maxActiveRequests
      ensures var size := if piece == piecesCnt - 1 then 1 + (cfg.torrentSize - 1) % cfg.pieceSize else cfg.pieceSize;
        cfg.Ok() && piece < cfg.PiecesCnt() && size == cfg.PieceLen(piece)
        && 1 <= size <= MAX_PIECE_SIZE && CanHold(size, dataPool, utilPool)
    {
      ChunkFits(cfg.torrentSize, cfg.pieceSize, piece);
      CeilDivMono(cfg.PieceLen(piece), cfg.pieceSize, BLOCK_SIZE);
    }

    twostate lemma PieceStarted(piece: nat)
      requires old(PiecesOk()) && piece !in old(requested) && piece in requested
      requires requested == old(requested)[piece := requested[piece]]
      requires forall p :: p in old(requested) ==> unchanged(old(requested)[p]) && old(requested)[p] != requested[piece]
      requires requested[piece].Valid() && requested[piece].timeout == cfg.timeout
      ensures PiecesOk() && InProgress() == old(InProgress())[piece := requested[piece].State()]
    {
      hide Piece.Valid, Piece.State;
    }

    twostate lemma StorageStarted(piece: nat)
      requires old(PoolsOk()) && piece !in old(requested) && piece in requested
      requires requested == old(requested)[piece := requested[piece]]
      requires requested[piece].PointsInto(dataPool, utilPool)
      requires dataPool.Valid() && utilPool.Valid()
      requires dataPool.freeBlocks == old(dataPool.freeBlocks) - 1
      requires utilPool.freeBlocks == old(utilPool.freeBlocks) - 2
      requires Held(requested[piece].storage, old(dataPool.Free()), dataPool.Free(),
                    old(utilPool.Free()), utilPool.Free())
      ensures PoolsOk()
    {
      hide MemoryPool.Free, MemoryPool.Valid, Piece.PointsInto, Held;
      assert requested.Keys == old(requested).Keys + {piece};
      HeldNow(requested[piece].storage, old(dataPool.Free()), dataPool.Free(), old(utilPool.Free()), utilPool.Free());
      FreeBlocksExist(dataPool);
      FreeBlocksExist(utilPool);
      forall p | p in requested
        ensures StorageLive(requested[p])
        ensures p != piece ==> StorageApart(requested[p].storage, requested[piece].storage)
      {
        if p != piece {
          assert old(StorageLive(requested[p]));
          HeldApart(requested[piece].storage, old(dataPool.Free()), dataPool.Free(),
                    old(utilPool.Free()), utilPool.Free(), requested[p].storage);
        }
      }
    }

    static lemma HeldNow(st: Storage, data: set<nat>, data': set<nat>, util: set<nat>, util': set<nat>)
      requires Held(st, data, data', util, util')
      ensures st.data in data && st.remaining in util && st.position in util && st.remaining != st.position
      ensures st.data !in data' && st.remaining !in util' && st.position !in util'
    {
    }

    static lemma HeldApart(st: Storage, data: set<nat>, data': set<nat>, util: set<nat>, util': set<nat>,
                           other: Storage)
      requires Held(st, data, data', util, util')
      requires other.data !in data && other.remaining !in util && other.position !in util
      ensures other.data !in data' && other.remaining !in util' && other.position !in util'
      ensures other.data != st.data && {other.remaining, other.position} !! {st.remaining, st.position}
    {
    }

    twostate lemma FreeBlocksExist(pool: MemoryPool)
      requires old(pool.Valid())
      ensures forall b :: b in old(pool.Free()) ==> b < pool.blockCount
    {
    }

    /** One turn of the scan over the sorted pieces: the piece is skipped, with nothing
        changed, exactly when it cannot yield a block to this peer now. */
    method TryPiece(piece: nat, bits: seq<bool>, now: Clock) returns (answer: Option<Block>)
      requires Valid() && piece < piecesCnt <= |bits| && now.stamp > TIME_MIN
      modifies this`requested, requested.Values, dataPool, dataPool.pool, utilPool, utilPool.pool
      ensures Valid() && fresh(requested.Values - old(requested.Values))
      ensures answer == None <==> !CanYield(cfg, old(Model()), bits, now, piece)
      ensures answer == None ==> Model() == old(Model()) && requested == old(requested)
      ensures answer.Some? ==> piece < cfg.PiecesCnt()
      ensures answer.Some? ==> TakesBlock(cfg, old(Model()), piece, now, Model(), answer.value)
    {
      hide *;
      Unfold();
      ghost var s := Model();
      PieceIsValid(piece);
      YieldIs(s, bits, now, piece);
      if pieceCompleted[piece] || !bits[piece] {
        return None;
      }
      if piece !in requested {
        RequestedCount();
        if |requested| >= maxActiveRequests {
          return None;
        }
        StartPiece(piece);
      }
      FieldsAre(s);
      answer := AskCandidate(piece, bits, now, s);
    }

    method AskCandidate(piece: nat, bits: seq<bool>, now: Clock, ghost s: State) returns (answer: Option<Block>)
      requires ShapeOk() && PiecesOk() && now.stamp > TIME_MIN && piece < piecesCnt <= |bits|
      requires cfg.Ok() && Inv(cfg, s) && piece < cfg.PiecesCnt()
      requires InProgress()
            == if piece in s.requested then s.requested else s.requested[piece := FreshPiece(cfg.PieceLen(piece))]
      requires SameFields(s) && s.disk == fileManager.Flat()
      requires piece < |s.completed| && !s.completed[piece] && bits[piece]
      requires piece !in s.requested ==> |s.requested| < maxActiveRequests
      requires piece in requested
      modifies requested[piece]
      ensures Valid()
      ensures answer == None <==> !CanYield(cfg, s, bits, now, piece)
      ensures answer == None ==> Model() == s
      ensures answer.Some? ==> TakesBlock(cfg, s, piece, now, Model(), answer.value)
    {
      hide *;
      ShapeParts();
      FieldsAre(s);
      YieldIs(s, bits, now, piece);
      CandidateInProgress(s, piece);
      answer := AskPiece(piece, now, s.requested);
      ghost var p := Candidate(cfg, s, piece);
      ghost var next := NextBlock(p.open, p.requestTime, now.read(piece), cfg.timeout);
      if answer == None {
        Fold(s);
      } else {
        ghost var s' := s.(requested := s.requested[piece := MarkRequested(p, next.value, now.stamp)]);
        Taken(s, bits, now, piece, s', next.value);
        Fold(s');
      }
    }

    lemma CandidateInProgress(s: State, piece: nat)
      requires cfg.Ok() && piece < cfg.PiecesCnt() && PiecesOk()
      requires InProgress()
            == if piece in s.requested then s.requested else s.requested[piece := FreshPiece(cfg.PieceLen(piece))]
      ensures piece in requested && piece in InProgress() && InProgress()[piece] == Candidate(cfg, s, piece)
      ensures InProgress() - {piece} == s.requested - {piece}
    {
      assert InProgress().Keys == requested.Keys;
    }

    lemma RequestedCount()
      requires PiecesOk()
      ensures |InProgress()| == |requested|
    {
      assert InProgress().Keys == requested.Keys;
    }

    /** Asks a piece in progress for its next block; m agrees with the other pieces in progress. */
    method AskPiece(piece: nat, now: Clock, ghost m: map<nat, PieceState>) returns (answer: Option<Block>)
      requires ShapeOk() && PiecesOk() && piece in requested && now.stamp > TIME_MIN
      requires InProgress() - {piece} == m - {piece}
      modifies requested[piece]
      ensures ShapeOk() && PiecesOk()
      ensures piece in old(InProgress())
      ensures var p := old(InProgress())[piece];
        match NextBlock(p.open, p.requestTime, now.read(piece), cfg.timeout)
        case None => answer == None && InProgress() == old(InProgress())
        case Some(b) =>
          && b < |p.requestTime| && b < BlocksIn(p.size)
          && answer == Some(Block(piece, b * BLOCK_SIZE, ChunkLen(p.size, BLOCK_SIZE, b)))
          && InProgress() == m[piece := MarkRequested(p, b, now.stamp)]
    {
      hide *;
      ShapeParts();
      PieceIsValid(piece);
      ghost var before := InProgress();
      BytesOf(piece);
      NextBlockInRange(before[piece], now.read(piece), cfg.timeout);
      var p := requested[piece];
      var r := p.RequestNextBlock(now.read(piece), now.stamp);
      PieceChanged(piece);
      BytesAsked(piece);
      WordsAsked(piece);
      ShapeFromParts();
      SameElsewhere(before, m, piece, InProgress()[piece]);
      answer := if r == None then None else Some(Block(piece, r.value.0, r.value.1));
    }

    static lemma SameElsewhere(m: map<nat, PieceState>, m': map<nat, PieceState>, piece: nat, p: PieceState)
      requires m - {piece} == m' - {piece}
      ensures m[piece := p] == m'[piece := p]
    {
      assert m[piece := p] == (m - {piece})[piece := p];
      assert m'[piece := p] == (m' - {piece})[piece := p];
    }

    /** When a piece can yield a block -- a fresh piece always can -- and what then follows. */
    lemma YieldIs(s: State, bits: seq<bool>, now: Clock, piece: nat)
      requires SizesOk() && Inv(cfg, s) && piece < piecesCnt <= |bits|
      ensures |s.completed| == cfg.PiecesCnt() == piecesCnt
      ensures Candidate(cfg, s, piece).size == cfg.PieceLen(piece)
      ensures var p := Candidate(cfg, s, piece);
        var next := NextBlock(p.open, p.requestTime, now.read(piece), cfg.timeout);
        && (CanYield(cfg, s, bits, now, piece) <==>
              && !s.completed[piece] && bits[piece]
              && (piece !in s.requested ==> |s.requested| < maxActiveRequests)
              && next.Some?)
        && (piece !in s.requested ==> next.Some?)
        && (next.Some? ==> next.value < |p.requestTime|)
    {
      ChunkFits(cfg.torrentSize, cfg.pieceSize, piece);
      FreshPieceOk(cfg.PieceLen(piece));
      if piece in s.requested {
        RequestedPiece(cfg, s, piece);
      } else {
        var p := FreshPiece(cfg.PieceLen(piece));
        assert Requestable(p.requestTime, 0, now.read(piece)(0), cfg.timeout);
      }
    }

    /** Marking the block requested is the engine's step, and it keeps the invariant. */
    lemma Taken(s: State, bits: seq<bool>, now: Clock, piece: nat, s': State, b: nat)
      requires SizesOk() && Inv(cfg, s) && piece < piecesCnt <= |bits| && CanYield(cfg, s, bits, now, piece)
      requires var p := Candidate(cfg, s, piece);
        NextBlock(p.open, p.requestTime, now.read(piece), cfg.timeout) == Some(b)
      requires b < |Candidate(cfg, s, piece).requestTime| && b < BlocksIn(cfg.PieceLen(piece))
      requires s' == s.(requested := s.requested[piece := MarkRequested(Candidate(cfg, s, piece), b, now.stamp)])
      ensures Inv(cfg, s') && piece < cfg.PiecesCnt()
      ensures TakesBlock(cfg, s, piece, now, s',
                Block(piece, b * BLOCK_SIZE, ChunkLen(cfg.PieceLen(piece), BLOCK_SIZE, b)))
    {
      D.TakeKeepsInv(cfg, s, piece, now, s',
        Block(piece, b * BLOCK_SIZE, ChunkLen(cfg.PieceLen(piece), BLOCK_SIZE, b)));
    }

    /** Sorts by availability if some counter changed since the last time; ties may end up
        in any order. */
    method SortIfNeeded()
      requires Valid()
      modifies this`sortedPieces, this`arePiecesSorted
      ensures Valid() && IsPermutation(sortedPieces, piecesCnt) && piecesCnt == cfg.PiecesCnt()
      ensures InRange(sortedPieces, |old(Model()).avail|)
      ensures if old(Model()).isSorted then sortedPieces == old(Model()).sorted
              else Ordered(sortedPieces, old(Model()).avail)
      ensures Model() == old(Model()).(sorted := sortedPieces, isSorted := true)
    {
      hide *;
      Unfold();
      ghost var s := Model();
      var order := sortedPieces;
      OrderOnEntry(s);
      if !arePiecesSorted {
        order := SortByAvailability(sortedPieces, pieceAvail);
        OrderedInRange(order, pieceAvail);
      }
      SortedKeepsInv(s, order);
      sortedPieces, arePiecesSorted := order, true;
      Fold(s.(sorted := order, isSorted := true));
    }

    lemma OrderOnEntry(s: State)
      requires cfg.Ok() && Inv(cfg, s)
      ensures IsPermutation(s.sorted, cfg.PiecesCnt()) && InRange(s.sorted, |s.avail|)
    {
    }

    lemma SortedKeepsInv(s: State, order: seq<nat>)
      requires cfg.Ok() && Inv(cfg, s)
      requires IsPermutation(order, cfg.PiecesCnt()) && InRange(order, |s.avail|)
      ensures Inv(cfg, s.(sorted := order, isSorted := true))
    {
      var s1 := s.(sorted := order, isSorted := true);
      forall p | p in s1.requested ensures RequestedOk(cfg, s1, p) {
        assert RequestedOk(cfg, s, p);
      }
    }

    /** Some sort by availability; the library's is not stable, so only this much is promised. */
    static method SortByAvailability(s: seq<nat>, avail: seq<uint16>) returns (r: seq<nat>)
      requires InRange(s, |avail|)
      ensures multiset(r) == multiset(s) && Ordered(r, avail)
    {
      hide Ordered;
      r := [];
      EmptyOrdered(avail);
      for k := 0 to |s|
        invariant multiset(r) == multiset(s[..k]) && Ordered(r, avail)
      {
        assert s[..k + 1] == s[..k] + [s[k]];
        r := Insert(r, avail, s[k]);
      }
      assert s[..|s|] == s;
    }

    static method Insert(r: seq<nat>, avail: seq<uint16>, x: nat) returns (r': seq<nat>)
      requires Ordered(r, avail) && x < |avail|
      ensures multiset(r') == multiset(r) + multiset{x} && Ordered(r', avail)
    {
      hide Ordered, Boundary;
      OrderedInRange(r, avail);
      var at := UpperBound(r, avail, avail[x]);
      InsertOrdered(r, avail, at, x);
      InsertMultiset(r, at, x);
      r' := r[..at] + [x] + r[at..];
    }

    static lemma EmptyOrdered(avail: seq<uint16>)
      ensures Ordered([], avail)
    {
    }

    static lemma OrderedInRange(r: seq<nat>, avail: seq<uint16>)
      requires Ordered(r, avail)
      ensures InRange(r, |avail|)
    {
    }

    static lemma InsertOrdered(r: seq<nat>, avail: seq<uint16>, at: nat, x: nat)
      requires Ordered(r, avail) && at <= |r| && x < |avail|
      requires forall k :: 0 <= k < at ==> avail[r[k]] <= avail[x]
      requires forall k :: at <= k < |r| ==> avail[r[k]] > avail[x]
      ensures Ordered(r[..at] + [x] + r[at..], avail)
    {
      var r' := r[..at] + [x] + r[at..];
      forall i, j | 0 <= i < j < |r'|
        ensures r'[i] < |avail| && r'[j] < |avail| && avail[r'[i]] <= avail[r'[j]]
      {
        assert r'[i] == if i < at then r[i] else if i == at then x else r[i - 1];
        assert r'[j] == if j < at then r[j] else if j == at then x else r[j - 1];
      }
      assert forall k :: 0 <= k < |r'| ==> r'[k] == if k < at then r[k] else if k == at then x else r[k - 1];
    }

    static lemma InsertMultiset<T>(r: seq<T>, at: nat, x: T)
      requires at <= |r|
      ensures multiset(r[..at] + [x] + r[at..]) == multiset(r) + multiset{x}
    {
      assert r == r[..at] + r[at..];
    }

    // ----- entering endgame mode -------------------------------------------

    /** Every block of every piece in progress has been asked for. */
    method AllRequested() returns (all: bool)
      requires PiecesOk()
      ensures all <==> forall p :: p in InProgress() ==> Unrequested(InProgress()[p].requestTime) == 0
    {
      var todo := requested.Keys;
      while todo != {}
        invariant todo <= requested.Keys
        invariant forall p :: p in requested && p !in todo ==> requested[p].unrequestedBlocks == 0
        decreases todo
      {
        var p :| p in todo;
        assert InProgress()[p] == requested[p].State();
        if requested[p].unrequestedBlocks > 0 {
          return false;
        }
        todo := todo - {p};
      }
      return true;
    }

    /** The blocks still missing, in whatever order the pieces come. */
    method CollectOpenBlocks() returns (reqs: seq<Block>)
      requires PiecesOk()
      ensures ListsOpenBlocks(InProgress(), reqs)
    {
      hide *;
      RequestedKeys();
      reqs := [];
      var todo := requested.Keys;
      ghost var done: map<nat, PieceState> := map[];
      ListsNothing();
      while todo != {}
        invariant todo <= requested.Keys && done.Keys == requested.Keys - todo
        invariant forall p :: p in done ==> done[p] == InProgress()[p]
        invariant ListsOpenBlocks(done, reqs)
        decreases todo
      {
        var p :| p in todo;
        PieceIsValid(p);
        var open := requested[p].remainingBlocks[..requested[p].blocksLeft];
        ListsMore(done, reqs, p, InProgress()[p]);
        reqs := reqs + OpenRequests(p, open);
        done := done[p := InProgress()[p]];
        todo := todo - {p};
      }
      assert done == InProgress();
    }

    lemma RequestedKeys()
      requires PiecesOk()
      ensures InProgress().Keys == requested.Keys
    {
    }

    static lemma ListsNothing()
      ensures ListsOpenBlocks(map[], [])
    {
    }

    static function OpenRequests(p: nat, open: seq<nat>): (r: seq<Block>)
      ensures |r| == |open| && forall i :: 0 <= i < |r| ==> r[i] == Block(p, open[i] * BLOCK_SIZE, BLOCK_SIZE)
    {
      seq(|open|, i requires 0 <= i < |open| => Block(p, open[i] * BLOCK_SIZE, BLOCK_SIZE))
    }

    static lemma ListsMore(done: map<nat, PieceState>, reqs: seq<Block>, p: nat, st: PieceState)
      requires ListsOpenBlocks(done, reqs) && p !in done && NoDup(st.open)
      ensures ListsOpenBlocks(done[p := st], reqs + OpenRequests(p, st.open))
    {
      var more := OpenRequests(p, st.open);
      var done' := done[p := st];
      forall r | r in reqs + more ensures OpenRequest(done', r) {
        if r in reqs {
          assert OpenRequest(done, r);
        } else {
          var i :| 0 <= i < |more| && more[i] == r;
          assert st.open[i] in st.open && r.offset / BLOCK_SIZE == st.open[i];
        }
      }
      forall q, b | q in done' && b in done'[q].open
        ensures Block(q, b * BLOCK_SIZE, BLOCK_SIZE) in reqs + more
      {
        if q == p {
          var i := IndexOf(st.open, b);
          assert more[i] == Block(q, b * BLOCK_SIZE, BLOCK_SIZE);
        }
      }
      NoDupJoin(done, reqs, p, more);
    }

    static lemma NoDupJoin(done: map<nat, PieceState>, reqs: seq<Block>, p: nat, more: seq<Block>)
      requires ListsOpenBlocks(done, reqs) && p !in done
      requires NoDup(more) && forall i :: 0 <= i < |more| ==> more[i].piece == p
      ensures NoDup(reqs + more)
    {
      forall i, j | 0 <= i < j < |reqs + more| ensures (reqs + more)[i] != (reqs + more)[j] {
        if i < |reqs| <= j {
          assert OpenRequest(done, reqs[i]);
        }
      }
    }

    method EnterEndgameIfDue()
      requires Valid()
      modifies this`endgame, this`endgameRequests
      ensures Valid() && EntersEndgameIfDue(old(Model()), Model())
    {
      hide *;
      Unfold();
      ghost var s := Model();
      var due, reqs := EndgameList(s);
      EndgameIs(s, due, reqs);
      endgame, endgameRequests := endgame || due, reqs;
      Fold(s.(endgame := endgame, endgameRequests := reqs));
    }

    /** Whether endgame mode begins now, and with which requests. */
    method EndgameList(ghost s: State) returns (due: bool, reqs: seq<Block>)
      requires PiecesOk() && s.requested == InProgress()
      requires s.endgame == endgame && s.left == piecesLeft && s.endgameRequests == endgameRequests
      ensures due <==> EndgameDue(s)
      ensures if due then ListsOpenBlocks(s.requested, reqs) else reqs == s.endgameRequests
    {
      hide PiecesOk, InProgress;
      RequestedCount();
      due, reqs := false, endgameRequests;
      if !endgame && piecesLeft == |requested| {
        due := AllRequested();
        if due {
          reqs := CollectOpenBlocks();
        }
      }
    }

    lemma EndgameIs(s: State, due: bool, reqs: seq<Block>)
      requires cfg.Ok() && Inv(cfg, s)
      requires due <==> EndgameDue(s)
      requires if due then ListsOpenBlocks(s.requested, reqs) else reqs == s.endgameRequests
      ensures var s' := s.(endgame := s.endgame || due, endgameRequests := reqs);
        EntersEndgameIfDue(s, s') && Inv(cfg, s')
    {
      D.EndgameKeepsInv(cfg, s, s.(endgame := s.endgame || due, endgameRequests := reqs));
    }

    // ----- one request -----------------------------------------------------

    /** The next block to ask this peer for, rarest piece first. */
    method RequestNextBlock(bits: seq<bool>, now: Clock) returns (answer: Option<Block>)
      requires Valid() && piecesCnt <= |bits| && now.stamp > TIME_MIN
      modifies this, requested.Values, dataPool, dataPool.pool, utilPool, utilPool.pool
      ensures Valid() && fresh(requested.Values - old(requested.Values))
      ensures cfg.Ok() && Inv(cfg, old(Model()))
      ensures Answers(cfg, old(Model()), bits, now, Model(), answer)
    {
      hide *;
      Unfold();
      ghost var s := Model();
      if piecesLeft == 0 {
        NothingLeft(s, bits, now);
        return None;
      }
      SortIfNeeded();
      ghost var s1 := Model();
      ghost var k;
      answer, k := TryInOrder(bits, now);
      if answer.Some? {
        Yielded(s, s1, bits, now, k, Model(), answer.value);
        return;
      }
      EnterEndgameIfDue();
      NoneYields(s, s1, bits, now, Model());
    }

    /** The scan: the pieces are tried in the order of the list until one yields a block. */
    method TryInOrder(bits: seq<bool>, now: Clock) returns (answer: Option<Block>, ghost k: nat)
      requires Valid() && piecesCnt <= |bits| && now.stamp > TIME_MIN
      modifies this`requested, requested.Values, dataPool, dataPool.pool, utilPool, utilPool.pool
      ensures Valid() && fresh(requested.Values - old(requested.Values))
      ensures cfg.Ok() && Inv(cfg, old(Model())) && k <= |old(Model()).sorted|
      ensures answer.Some? == (k < |old(Model()).sorted|)
      ensures forall j :: 0 <= j < k ==> !CanYield(cfg, old(Model()), bits, now, old(Model()).sorted[j])
      ensures answer == None ==> Model() == old(Model())
      ensures answer.Some? ==>
        && old(Model()).sorted[k] < cfg.PiecesCnt()
        && CanYield(cfg, old(Model()), bits, now, old(Model()).sorted[k])
        && TakesBlock(cfg, old(Model()), old(Model()).sorted[k], now, Model(), answer.value)
    {
      hide *;
      Unfold();
      ghost var s := Model();
      ListIs();
      for i := 0 to |sortedPieces|
        invariant Valid() && Model() == s && requested == old(requested)
        invariant sortedPieces == s.sorted
        invariant forall j :: 0 <= j < i ==> !CanYield(cfg, s, bits, now, s.sorted[j])
      {
        PieceInRange(i);
        answer := TryPiece(sortedPieces[i], bits, now);
        if answer.Some? {
          k := i;
          return;
        }
      }
      answer, k := None, |sortedPieces|;
    }

    lemma ListIs()
      requires Valid()
      ensures Model().sorted == sortedPieces
    {
    }

    lemma NothingLeft(s: State, bits: seq<bool>, now: Clock)
      requires cfg.Ok() && Inv(cfg, s) && s.left == 0
      ensures Answers(cfg, s, bits, now, s, None)
    {
    }

    lemma PieceInRange(k: nat)
      requires Valid() && k < |sortedPieces|
      ensures sortedPieces[k] < piecesCnt && Model().sorted == sortedPieces
    {
    }

    lemma Yielded(s: State, s1: State, bits: seq<bool>, now: Clock, k: nat, s': State, block: Block)
      requires cfg.Ok() && Inv(cfg, s) && s.left != 0 && s1 == s.(sorted := s1.sorted, isSorted := true)
      requires IsPermutation(s1.sorted, cfg.PiecesCnt()) && InRange(s1.sorted, |s.avail|)
      requires if s.isSorted then s1.sorted == s.sorted else Ordered(s1.sorted, s.avail)
      requires k < |s1.sorted| && s1.sorted[k] < cfg.PiecesCnt()
      requires CanYield(cfg, s1, bits, now, s1.sorted[k])
      requires forall j :: 0 <= j < k ==> !CanYield(cfg, s1, bits, now, s1.sorted[j])
      requires TakesBlock(cfg, s1, s1.sorted[k], now, s', block)
      ensures Answers(cfg, s, bits, now, s', Some(block))
    {
      assert block.piece == s1.sorted[k];
      assert s'.sorted == s1.sorted;
    }

    lemma NoneYields(s: State, s1: State, bits: seq<bool>, now: Clock, s': State)
      requires cfg.Ok() && Inv(cfg, s) && s.left != 0 && s1 == s.(sorted := s1.sorted, isSorted := true)
      requires IsPermutation(s1.sorted, cfg.PiecesCnt()) && InRange(s1.sorted, |s.avail|)
      requires if s.isSorted then s1.sorted == s.sorted else Ordered(s1.sorted, s.avail)
      requires forall j :: 0 <= j < |s1.sorted| ==> !CanYield(cfg, s1, bits, now, s1.sorted[j])
      requires EntersEndgameIfDue(s1, s')
      ensures Answers(cfg, s, bits, now, s', None)
    {
      PermutationIndices(s1.sorted, cfg.PiecesCnt());
      forall p: nat ensures !CanYield(cfg, s, bits, now, p) {
        if p < cfg.PiecesCnt() {
          var j := IndexOf(s1.sorted, p);
          assert !CanYield(cfg, s1, bits, now, s1.sorted[j]);
        }
      }
    }

    /** The endgame blocks this peer can serve. */
    function EndgameRemainingBlocks(bits: seq<bool>): (r: seq<Block>)
      requires forall b :: b in endgameRequests ==> b.piece < |bits|
      requires !endgame ==> endgameRequests == []
      reads this
      ensures Sifted(r, endgameRequests, OwnedBy(bits)) && Subsequence(r, endgameRequests)
    {
      if !endgame then [] else Served(endgameRequests, bits)
    }

    static function Served(reqs: seq<Block>, bits: seq<bool>): (r: seq<Block>)
      requires forall b :: b in reqs ==> b.piece < |bits|
      ensures Sifted(r, reqs, OwnedBy(bits)) && Subsequence(r, reqs)
      ensures forall b :: b in r ==> b.piece < |bits| && bits[b.piece]
    {
      if reqs == [] then []
      else
        var init := reqs[..|reqs| - 1];
        var last := reqs[|reqs| - 1];
        assert reqs == init + [last];
        if bits[last.piece] then Served(init, bits) + [last] else Served(init, bits)
    }
  }

  /** The one pool holds pieces for 512 MiB, rounded up to whole ones, and the other two vectors of
      16-bit block indices for each; blocks are rounded up by less than sixteen bytes. */
  ghost predicate PoolsSized(pieceSize: nat, dataPool: MemoryPool, utilPool: MemoryPool) {
    && (dataPool.blockCount - 1) * pieceSize < 0x2000_0000 <= dataPool.blockCount * pieceSize
    && pieceSize <= dataPool.alignedBlockSize < pieceSize + 16
    && utilPool.blockCount == 2 * dataPool.blockCount
    && pieceSize <= utilPool.alignedBlockSize / 2 * 16384
    && (utilPool.alignedBlockSize / 2 - 8) * 16384 < pieceSize
  }

  lemma CapSizesPools(cfg: Config, dataPool: MemoryPool, utilPool: MemoryPool)
    requires cfg.Ok() && dataPool.blockCount == CeilDiv(MAX_MEMPOOL_SIZE, cfg.pieceSize)
    requires dataPool.alignedBlockSize == NextAligned(cfg.pieceSize)
    requires utilPool.blockCount == 2 * dataPool.blockCount
    requires utilPool.alignedBlockSize == NextAligned(CeilDiv(cfg.pieceSize, BLOCK_SIZE) * SIZEOF_UINT16)
    ensures PoolsSized(cfg.pieceSize, dataPool, utilPool)
  {
    hide CeilDiv, NextAligned;
    CeilDivBounds(MAX_MEMPOOL_SIZE, cfg.pieceSize);
    CeilDivBounds(cfg.pieceSize, BLOCK_SIZE);
    HalfAligned(CeilDiv(cfg.pieceSize, BLOCK_SIZE), cfg.pieceSize);
  }

  lemma HalfAligned(n: nat, size: nat)
    requires (n - 1) * 16384 < size <= n * 16384
    ensures var a := NextAligned(n * SIZEOF_UINT16); size <= a / 2 * 16384 && (a / 2 - 8) * 16384 < size
  {
    var a := NextAligned(n * SIZEOF_UINT16);
    assert n <= a / 2 < n + 8;
  }

  /** The number of pieces in progress is at least one and fits the address range. */
  lemma CapFits(cfg: Config)
    requires cfg.Ok()
    ensures 1 <= cfg.Cap() && 2 * cfg.Cap() < TWO_TO_64
  {
    CeilDivBounds(MAX_MEMPOOL_SIZE, cfg.pieceSize);
  }

  lemma NeedsBlocks(cfg: Config)
    requires cfg.Ok()
    ensures BlocksIn(cfg.pieceSize) >= 1
  {
    CeilDivBounds(cfg.pieceSize, BLOCK_SIZE);
  }
}
