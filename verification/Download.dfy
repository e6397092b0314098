/** What holds in every state of every run of the download engine, and what
    ends up in the output files. */
module Download {
  import opened Prelude
  import opened Layout
  import opened Pieces
  import opened Engine

  // ----- counting ----------------------------------------------------------

  lemma {:induction false} CountFalseUpdate(bs: seq<bool>, i: nat, b: bool)
    requires i < |bs|
    ensures CountFalse(bs[i := b]) == CountFalse(bs) + (if bs[i] then 1 else 0) - (if b then 1 else 0)
  {
    var n := |bs| - 1;
    if i < n {
      CountFalseUpdate(bs[..n], i, b);
      assert bs[i := b][..n] == bs[..n][i := b];
    } else {
      assert bs[i := b][..n] == bs[..n];
    }
  }

  ghost function Incomplete(completed: seq<bool>): set<nat> {
    set i: nat | i < |completed| && !completed[i]
  }

  lemma {:induction false} CountFalseIsCard(bs: seq<bool>)
    ensures CountFalse(bs) == |Incomplete(bs)|
  {
    if bs == [] {
      assert Incomplete(bs) == {};
    } else {
      var n := |bs| - 1;
      CountFalseIsCard(bs[..n]);
      var init := Incomplete(bs[..n]);
      assert n !in init;
      assert Incomplete(bs) == if bs[n] then init else init + {n};
    }
  }

  lemma {:induction false} SubsetCard<T>(a: set<T>, b: set<T>)
    requires a <= b
    ensures |a| <= |b| && (|a| == |b| ==> a == b)
  {
    if a != {} {
      var x :| x in a;
      SubsetCard(a - {x}, b - {x});
    }
  }

  /** There are never more pieces in progress than pieces left to complete. */
  lemma RequestedWithinIncomplete(cfg: Config, s: State)
    requires cfg.Ok() && Inv(cfg, s)
    ensures s.requested.Keys <= Incomplete(s.completed)
    ensures |s.requested| <= s.left && (s.left == |s.requested| ==> s.requested.Keys == Incomplete(s.completed))
  {
    forall p | p in s.requested ensures p in Incomplete(s.completed) {
      assert RequestedOk(cfg, s, p);
    }
    CountFalseIsCard(s.completed);
    SubsetCard(s.requested.Keys, Incomplete(s.completed));
  }

  // ----- the invariant is kept ---------------------------------------------

  lemma {:induction false} AllFalseCount(n: nat)
    ensures CountFalse(seq(n, _ => false)) == n
  {
    if n > 0 {
      AllFalseCount(n - 1);
      assert seq(n, _ => false)[..n - 1] == seq(n - 1, _ => false);
    }
  }

  lemma InitInv(cfg: Config)
    requires cfg.Ok()
    ensures Inv(cfg, Init(cfg))
  {
    AllFalseCount(cfg.PiecesCnt());
    PermutationIndices(Iota(cfg.PiecesCnt()), cfg.PiecesCnt());
  }

  lemma PieceSize(p: PieceState, size: nat)
    requires PieceOk(p, size)
    ensures |p.data| == size == p.size
  {
  }

  lemma ArrivalKeepsInv(cfg: Config, s: State, piece: nat, block: seq<byte>, offset: nat)
    requires cfg.Ok() && Inv(cfg, s)
    requires piece in s.requested ==> Arrives(s.requested[piece], offset, |block|)
    ensures Inv(cfg, AcceptBlock(cfg, s, piece, block, offset))
  {
    hide Receive, PieceOk, InTorrent, IsPermutation, CeilDiv, ChunkLen, FinishPiece;
    if piece in s.requested {
      assert RequestedOk(cfg, s, piece);
      PieceSize(s.requested[piece], cfg.PieceLen(piece));
      ReceiveOk(s.requested[piece], cfg.PieceLen(piece), block, offset);
      var p := Receive(s.requested[piece], block, offset);
      PieceSize(p, cfg.PieceLen(piece));
      if p.open != [] {
        var s' := AcceptBlock(cfg, s, piece, block, offset);
        assert s'.requested.Keys == s.requested.Keys;
        forall q | q in s'.requested ensures RequestedOk(cfg, s', q) {
          assert RequestedOk(cfg, s, q);
        }
      } else {
        FinishKeepsInv(cfg, s, piece, p.data);
      }
    }
  }

  lemma FinishKeepsInv(cfg: Config, s: State, piece: nat, data: seq<byte>)
    requires cfg.Ok() && Inv(cfg, s) && piece in s.requested && |data| == cfg.PieceLen(piece)
    ensures Inv(cfg, FinishPiece(cfg, s, piece, data))
  {
    hide RequestedOk, PieceOk, IsPermutation, Ordered, InTorrent, CeilDiv, ChunkLen, Splice, Config.DiskOffset;
    RequestedParts(cfg, s, piece);
    var s' := FinishPiece(cfg, s, piece, data);
    CountFalseUpdate(s.completed, piece, s'.completed[piece]);
    assert s'.requested.Keys == s.requested.Keys - {piece};
    forall q | q in s'.requested ensures RequestedOk(cfg, s', q) {
      RequestedParts(cfg, s, q);
      RequestedStays(cfg, s, s', q);
    }
  }

  lemma RequestedParts(cfg: Config, s: State, p: nat)
    requires cfg.Ok() && Inv(cfg, s) && p in s.requested
    ensures p < cfg.PiecesCnt() && |s.completed| == cfg.PiecesCnt() && !s.completed[p]
  {
    assert RequestedOk(cfg, s, p);
  }

  lemma RequestedStays(cfg: Config, s: State, s': State, p: nat)
    requires cfg.Ok() && |s.completed| == |s'.completed| == cfg.PiecesCnt() && p in s.requested && p in s'.requested
    requires RequestedOk(cfg, s, p) && s'.requested[p] == s.requested[p] && s'.completed[p] == s.completed[p]
    ensures RequestedOk(cfg, s', p)
  {
  }

  lemma PeerKeepsInv(cfg: Config, s: State, bits: seq<bool>, sign: int)
    requires cfg.Ok() && Inv(cfg, s) && |bits| >= cfg.PiecesCnt()
    ensures Inv(cfg, CountPeer(cfg, s, bits, sign))
  {
    var s' := CountPeer(cfg, s, bits, sign);
    if !AnyBit(bits, |s.avail|) {
      assert s'.avail == s.avail;
    }
    forall p | p in s'.requested ensures RequestedOk(cfg, s', p) {
      assert RequestedOk(cfg, s, p);
    }
  }

  lemma HaveKeepsInv(cfg: Config, s: State, piece: nat, s': State)
    requires cfg.Ok() && Inv(cfg, s) && CountsOneMore(s, piece, s')
    ensures Inv(cfg, s')
  {
    hide Reordered, IsPermutation;
    if s.isSorted {
      ReorderedPermutes(s.sorted, s'.sorted, s.avail, piece, cfg.PiecesCnt());
      PermutationIndices(s'.sorted, cfg.PiecesCnt());
    }
    forall p | p in s'.requested ensures RequestedOk(cfg, s', p) {
      assert RequestedOk(cfg, s, p);
    }
  }

  lemma TakeKeepsInv(cfg: Config, s: State, piece: nat, now: Clock, s': State, answer: Block)
    requires cfg.Ok() && Inv(cfg, s) && piece < cfg.PiecesCnt() && !s.completed[piece]
    requires piece !in s.requested ==> |s.requested| < cfg.Cap()
    requires TakesBlock(cfg, s, piece, now, s', answer)
    ensures Inv(cfg, s')
  {
    TakenIsOk(cfg, s, piece, now, s', answer);
    hide RequestedOk, IsPermutation, Ordered, InTorrent, CeilDiv, ChunkLen, NextBlock, FreshPiece;
    assert s'.requested.Keys == s.requested.Keys + {piece};
    forall p | p in s'.requested ensures RequestedOk(cfg, s', p) {
      if p != piece {
        RequestedStays(cfg, s, s', p);
      }
    }
  }

  lemma TakenIsOk(cfg: Config, s: State, piece: nat, now: Clock, s': State, answer: Block)
    requires cfg.Ok() && Inv(cfg, s) && piece < cfg.PiecesCnt() && !s.completed[piece]
    requires TakesBlock(cfg, s, piece, now, s', answer)
    ensures piece in s'.requested && s'.completed == s.completed && RequestedOk(cfg, s', piece)
  {
    hide IsPermutation, Ordered, InTorrent, CeilDiv, NextBlock;
    ChunkFits(cfg.torrentSize, cfg.pieceSize, piece);
    FreshPieceOk(cfg.PieceLen(piece));
    if piece in s.requested {
      assert RequestedOk(cfg, s, piece);
    }
  }

  lemma EndgameKeepsInv(cfg: Config, s: State, s': State)
    requires cfg.Ok() && Inv(cfg, s) && EntersEndgameIfDue(s, s')
    ensures Inv(cfg, s')
  {
    if EndgameDue(s) {
      forall r | r in s'.endgameRequests ensures InTorrent(cfg, r) {
        assert OpenRequest(s.requested, r);
        assert RequestedOk(cfg, s, r.piece);
        OpenBlockInPiece(cfg.PieceLen(r.piece), r.offset / BLOCK_SIZE);
      }
      forall p | p in s'.requested ensures RequestedOk(cfg, s', p) {
        assert RequestedOk(cfg, s, p);
      }
    }
  }

  lemma OpenBlockInPiece(size: nat, b: nat)
    requires b < BlocksIn(size)
    ensures b * BLOCK_SIZE < size
  {
    ChunkFits(size, BLOCK_SIZE, b);
  }

  lemma AnswerKeepsInv(cfg: Config, s: State, bits: seq<bool>, now: Clock, s': State, answer: Option<Block>)
    requires cfg.Ok() && Inv(cfg, s) && |bits| >= cfg.PiecesCnt()
    requires Answers(cfg, s, bits, now, s', answer)
    ensures Inv(cfg, s')
  {
    if s.left != 0 {
      var s1 := s.(sorted := s'.sorted, isSorted := true);
      PermutationIndices(s1.sorted, cfg.PiecesCnt());
      forall p | p in s1.requested ensures RequestedOk(cfg, s1, p) {
        assert RequestedOk(cfg, s, p);
      }
      match answer
      case None => EndgameKeepsInv(cfg, s1, s');
      case Some(block) => TakeKeepsInv(cfg, s1, block.piece, now, s', block);
    }
  }

  lemma StepKeepsInv(cfg: Config, s: State, e: Event, s': State)
    requires cfg.Ok() && Inv(cfg, s) && Step(cfg, s, e, s')
    ensures Inv(cfg, s')
  {
    match e
    case PeerJoined(bits) => PeerKeepsInv(cfg, s, bits, 1);
    case PeerLeft(bits) => PeerKeepsInv(cfg, s, bits, -1);
    case PeerHas(piece) => HaveKeepsInv(cfg, s, piece, s');
    case BlockArrived(piece, block, offset) => ArrivalKeepsInv(cfg, s, piece, block, offset);
    case BlockAsked(bits, now, answer) => AnswerKeepsInv(cfg, s, bits, now, s', answer);
  }

  // ----- runs --------------------------------------------------------------

  datatype Transition = Transition(event: Event, after: State)

  /** The steps lead from s to t, one enabled event after the other. */
  ghost predicate Leads(cfg: Config, s: State, steps: seq<Transition>, t: State)
    requires cfg.Ok() && Inv(cfg, s)
    decreases |steps|
  {
    if steps == [] then t == s
    else
      && Step(cfg, s, steps[0].event, steps[0].after)
      && (StepKeepsInv(cfg, s, steps[0].event, steps[0].after);
          Leads(cfg, steps[0].after, steps[1..], t))
  }

  /** Every counting invariant holds in every reachable state. */
  lemma {:induction false} RunKeepsInv(cfg: Config, s: State, steps: seq<Transition>, t: State)
    requires cfg.Ok() && Inv(cfg, s) && Leads(cfg, s, steps, t)
    ensures Inv(cfg, t)
    decreases |steps|
  {
    if steps != [] {
      StepKeepsInv(cfg, s, steps[0].event, steps[0].after);
      RunKeepsInv(cfg, steps[0].after, steps[1..], t);
    }
  }

  /** A run can be extended by one more step. */
  lemma {:induction false} LeadsSnoc(cfg: Config, s: State, steps: seq<Transition>, t: State, e: Event, t': State)
    requires cfg.Ok() && Inv(cfg, s) && Leads(cfg, s, steps, t) && Inv(cfg, t) && Step(cfg, t, e, t')
    ensures Leads(cfg, s, steps + [Transition(e, t')], t')
    decreases |steps|
  {
    hide Step, Inv, Config.Ok;
    var more := steps + [Transition(e, t')];
    if steps == [] {
      StepKeepsInv(cfg, s, e, t');
      assert more[1..] == [];
    } else {
      StepKeepsInv(cfg, s, steps[0].event, steps[0].after);
      LeadsSnoc(cfg, steps[0].after, steps[1..], t, e, t');
      assert more[1..] == steps[1..] + [Transition(e, t')];
    }
  }

  ghost predicate InProgressThroughout(steps: seq<Transition>, p: nat) {
    forall k :: 0 <= k < |steps| ==> p in steps[k].after.requested
  }

  /** The peers' sending loops ask for blocks only before endgame mode. */
  ghost predicate Gated(s: State, steps: seq<Transition>)
    decreases |steps|
  {
    steps == [] || ((steps[0].event.BlockAsked? ==> !s.endgame) && Gated(steps[0].after, steps[1..]))
  }

  lemma {:induction false} GatedSnoc(cfg: Config, s: State, steps: seq<Transition>, t: State, e: Event, t': State)
    requires cfg.Ok() && Inv(cfg, s) && Leads(cfg, s, steps, t) && Gated(s, steps)
    requires e.BlockAsked? ==> !t.endgame
    ensures Gated(s, steps + [Transition(e, t')])
    decreases |steps|
  {
    hide Inv, Step;
    var more := steps + [Transition(e, t')];
    if steps == [] {
      assert more[1..] == [];
    } else {
      StepKeepsInv(cfg, s, steps[0].event, steps[0].after);
      GatedSnoc(cfg, steps[0].after, steps[1..], t, e, t');
      assert more[1..] == steps[1..] + [Transition(e, t')];
    }
  }

  /** Endgame mode is never left, and a granted block does not begin it. */
  lemma EndgameIsOneWay(cfg: Config, s: State, e: Event, s': State)
    requires cfg.Ok() && Inv(cfg, s) && Step(cfg, s, e, s')
    ensures s.endgame ==> s'.endgame
    ensures !s.endgame && s'.endgame ==> e.BlockAsked? && e.answer == None
  {
    hide RequestedOk, InTorrent, IsPermutation, Ordered, CanYield, AdjustAvail, Reordered, CeilDiv;
  }

  // ----- the output files --------------------------------------------------

  lemma TilesApart(cfg: Config, i: nat, j: nat)
    requires cfg.pieceSize > 0 && i < cfg.PiecesCnt() && j < cfg.PiecesCnt() && i != j
    ensures i * cfg.pieceSize + cfg.PieceLen(i) <= j * cfg.pieceSize
         || j * cfg.pieceSize + cfg.PieceLen(j) <= i * cfg.pieceSize
  {
    ChunkFits(cfg.torrentSize, cfg.pieceSize, i);
    ChunkFits(cfg.torrentSize, cfg.pieceSize, j);
    MulMono(if i < j then i else j, if i < j then j else i, cfg.pieceSize);
  }

  lemma FitsEverywhere(cfg: Config, i: nat)
    requires cfg.Ok() && cfg.OffsetsFit() && i < cfg.PiecesCnt()
    ensures cfg.DiskOffset(i) == i * cfg.pieceSize
  {
    hide ToUint32, CeilDiv;
    if i < cfg.PiecesCnt() - 1 {
      MulMono(i, cfg.PiecesCnt() - 1, cfg.pieceSize);
    }
  }

  /** Writing a verified piece fills its own tile and no other, as long as no offset wraps. */
  lemma FinishWritesOwnTile(cfg: Config, s: State, piece: nat, data: seq<byte>, i: nat)
    requires cfg.Ok() && cfg.OffsetsFit() && |s.completed| == cfg.PiecesCnt() && |s.disk| == cfg.torrentSize
    requires piece < cfg.PiecesCnt() && i < cfg.PiecesCnt() && |data| == cfg.PieceLen(piece)
    ensures cfg.Tile(FinishPiece(cfg, s, piece, data).disk, i)
         == if i == piece && cfg.Verified(data, piece) then data else cfg.Tile(s.disk, i)
  {
    hide ToUint32, Splice, CeilDiv, ChunkLen, Config.DiskOffset, Config.Tile;
    FitsEverywhere(cfg, piece);
    WriteFits(cfg, piece);
    TileOfSplice(cfg, s.disk, piece, data, i);
  }

  lemma TileOfSplice(cfg: Config, disk: seq<byte>, piece: nat, data: seq<byte>, i: nat)
    requires cfg.pieceSize > 0 && piece < cfg.PiecesCnt() && i < cfg.PiecesCnt()
    requires |disk| == cfg.torrentSize && |data| == cfg.PieceLen(piece)
    ensures piece * cfg.pieceSize + |data| <= |disk|
    ensures cfg.Tile(Splice(disk, piece * cfg.pieceSize, data), i) == if i == piece then data else cfg.Tile(disk, i)
  {
    hide CeilDiv, ChunkLen, Splice;
    ChunkFits(cfg.torrentSize, cfg.pieceSize, piece);
    ChunkFits(cfg.torrentSize, cfg.pieceSize, i);
    var at, lo := piece * cfg.pieceSize, i * cfg.pieceSize;
    if i != piece {
      TilesApart(cfg, i, piece);
      SpliceWindows(disk, at, data, lo, lo + cfg.PieceLen(i));
    } else {
      SpliceWindows(disk, at, data, at, at);
    }
  }

  /** Every completed piece is on disk, in its place, with the recorded digest. */
  ghost predicate DiskOk(cfg: Config, s: State)
    requires cfg.Ok() && Inv(cfg, s)
  {
    forall i :: 0 <= i < |s.completed| && s.completed[i] ==> cfg.Verified(cfg.Tile(s.disk, i), i)
  }

  /** Completed pieces stay completed, and their bytes stay as they are. */
  ghost predicate Settled(cfg: Config, s: State, t: State)
    requires cfg.Ok() && Inv(cfg, s) && Inv(cfg, t)
  {
    forall i :: 0 <= i < |s.completed| && s.completed[i] ==>
      t.completed[i] && cfg.Tile(t.disk, i) == cfg.Tile(s.disk, i)
  }

  lemma ArrivalKeepsDisk(cfg: Config, s: State, piece: nat, block: seq<byte>, offset: nat)
    requires cfg.Ok() && cfg.OffsetsFit() && Inv(cfg, s)
    requires piece in s.requested ==> Arrives(s.requested[piece], offset, |block|)
    requires Inv(cfg, AcceptBlock(cfg, s, piece, block, offset))
    ensures Settled(cfg, s, AcceptBlock(cfg, s, piece, block, offset))
    ensures DiskOk(cfg, s) ==> DiskOk(cfg, AcceptBlock(cfg, s, piece, block, offset))
  {
    if piece in s.requested {
      hide Splice, Config.Tile, Config.DiskOffset, IsPermutation, Ordered, InTorrent;
      RequestedPiece(cfg, s, piece);
      ReceiveOk(s.requested[piece], cfg.PieceLen(piece), block, offset);
      var p := Receive(s.requested[piece], block, offset);
      if p.open == [] {
        FinishKeepsDisk(cfg, s, piece, p.data);
      }
    }
  }

  lemma FinishKeepsDisk(cfg: Config, s: State, piece: nat, data: seq<byte>)
    requires cfg.Ok() && cfg.OffsetsFit() && Inv(cfg, s)
    requires piece < cfg.PiecesCnt() && !s.completed[piece] && |data| == cfg.PieceLen(piece)
    requires Inv(cfg, FinishPiece(cfg, s, piece, data))
    ensures Settled(cfg, s, FinishPiece(cfg, s, piece, data))
    ensures DiskOk(cfg, s) ==> DiskOk(cfg, FinishPiece(cfg, s, piece, data))
  {
    var s' := FinishPiece(cfg, s, piece, data);
    StateSizes(cfg, s);
    FinishCompletes(cfg, s, piece, data);
    hide Inv, FinishPiece, Config.Tile, Config.Verified, CeilDiv, ChunkLen, Config.Ok, Config.OffsetsFit;
    forall i | 0 <= i < |s.completed|
      ensures cfg.Tile(s'.disk, i) == if i == piece && cfg.Verified(data, piece) then data else cfg.Tile(s.disk, i)
    {
      FinishWritesOwnTile(cfg, s, piece, data, i);
    }
  }

  lemma StateSizes(cfg: Config, s: State)
    requires cfg.Ok() && Inv(cfg, s)
    ensures |s.completed| == |s.avail| == cfg.PiecesCnt() && |s.disk| == cfg.torrentSize
  {
  }

  lemma LeftIsCount(cfg: Config, s: State)
    requires cfg.Ok() && Inv(cfg, s)
    ensures s.left == CountFalse(s.completed)
  {
  }

  /** A piece counts as completed exactly if its data passed the check. */
  lemma FinishCompletes(cfg: Config, s: State, piece: nat, data: seq<byte>)
    requires cfg.Ok() && |s.completed| == cfg.PiecesCnt() && |s.disk| == cfg.torrentSize
    requires piece < cfg.PiecesCnt() && |data| == cfg.PieceLen(piece)
    ensures var s' := FinishPiece(cfg, s, piece, data);
      s'.completed == s.completed[piece := cfg.Verified(data, piece)] && |s'.disk| == cfg.torrentSize
      && s'.requested == s.requested - {piece} && s'.endgame == s.endgame && s'.endgameRequests == s.endgameRequests
  {
    hide CeilDiv, ChunkLen, Config.DiskOffset;
  }

  lemma StepKeepsDisk(cfg: Config, s: State, e: Event, s': State)
    requires cfg.Ok() && cfg.OffsetsFit() && Inv(cfg, s) && Step(cfg, s, e, s') && Inv(cfg, s')
    ensures Settled(cfg, s, s')
    ensures DiskOk(cfg, s) ==> DiskOk(cfg, s')
  {
    if e.BlockArrived? {
      ArrivalKeepsDisk(cfg, s, e.piece, e.block, e.offset);
    } else {
      assert s'.completed == s.completed && s'.disk == s.disk;
    }
  }

  /** No later step disturbs the bytes of a completed piece. */
  lemma {:induction false} RunKeepsDisk(cfg: Config, s: State, steps: seq<Transition>, t: State)
    requires cfg.Ok() && cfg.OffsetsFit() && Inv(cfg, s) && Leads(cfg, s, steps, t)
    ensures Inv(cfg, t) && Settled(cfg, s, t)
    ensures DiskOk(cfg, s) ==> DiskOk(cfg, t)
    decreases |steps|
  {
    RunKeepsInv(cfg, s, steps, t);
    if steps != [] {
      var s' := steps[0].after;
      StepKeepsInv(cfg, s, steps[0].event, s');
      StepKeepsDisk(cfg, s, steps[0].event, s');
      RunKeepsDisk(cfg, s', steps[1..], t);
      hide Inv, Step, Leads;
      forall i | 0 <= i < |s.completed| && s.completed[i]
        ensures t.completed[i] && cfg.Tile(t.disk, i) == cfg.Tile(s.disk, i)
      {
        assert s'.completed[i];
      }
    }
  }

  ghost predicate Reachable(cfg: Config, steps: seq<Transition>, t: State)
    requires cfg.Ok()
  {
    InitInv(cfg);
    Leads(cfg, Init(cfg), steps, t)
  }

  /** End to end: in every reachable state, each completed piece lies in its place in the
      output and hashes to its recorded digest; once nothing is left, every byte of the
      output belongs to such a piece. */
  lemma EndToEnd(cfg: Config, steps: seq<Transition>, t: State)
    requires cfg.Ok() && cfg.OffsetsFit() && Reachable(cfg, steps, t)
    ensures Inv(cfg, t) && DiskOk(cfg, t)
    ensures t.left == 0 ==> EveryByteVerified(cfg, t)
  {
    InitInv(cfg);
    RunKeepsDisk(cfg, Init(cfg), steps, t);
    if t.left == 0 {
      hide Leads;
      forall x: nat | x < cfg.torrentSize ensures ByteVerified(cfg, t, x) {
        ByteInVerifiedPiece(cfg, t, x);
      }
    }
  }

  ghost predicate EveryByteVerified(cfg: Config, s: State)
    requires cfg.Ok() && |s.disk| == cfg.torrentSize && |s.completed| == cfg.PiecesCnt()
  {
    forall x: nat :: x < cfg.torrentSize ==> ByteVerified(cfg, s, x)
  }

  ghost predicate ByteVerified(cfg: Config, s: State, x: nat)
    requires cfg.Ok() && |s.disk| == cfg.torrentSize && |s.completed| == cfg.PiecesCnt()
  {
    exists i :: InVerifiedPiece(cfg, s, i, x)
  }

  /** Byte x of the output lies in completed piece i, which passes its check. */
  ghost predicate InVerifiedPiece(cfg: Config, s: State, i: nat, x: nat)
    requires cfg.Ok() && |s.disk| == cfg.torrentSize && |s.completed| == cfg.PiecesCnt()
  {
    && i < cfg.PiecesCnt() && s.completed[i]
    && cfg.Verified(cfg.Tile(s.disk, i), i)
    && i * cfg.pieceSize <= x < i * cfg.pieceSize + cfg.PieceLen(i)
  }

  lemma ByteInVerifiedPiece(cfg: Config, s: State, x: nat)
    requires cfg.Ok() && Inv(cfg, s) && DiskOk(cfg, s) && s.left == 0 && x < cfg.torrentSize
    ensures ByteVerified(cfg, s, x)
  {
    var i := PieceOfByte(cfg, x);
    AllTrue(s.completed);
    assert InVerifiedPiece(cfg, s, i, x);
  }

  lemma {:induction false} AllTrue(bs: seq<bool>)
    ensures CountFalse(bs) == 0 <==> forall i :: 0 <= i < |bs| ==> bs[i]
  {
    if bs != [] {
      AllTrue(bs[..|bs| - 1]);
    }
  }

  lemma PieceOfByte(cfg: Config, x: nat) returns (i: nat)
    requires cfg.pieceSize > 0 && x < cfg.torrentSize
    ensures i < cfg.PiecesCnt() && i * cfg.pieceSize <= x < i * cfg.pieceSize + cfg.PieceLen(i)
  {
    i := x / cfg.pieceSize;
    ChunksPartition(cfg.torrentSize, cfg.pieceSize, x);
  }

  // ----- torrents whose offsets wrap ---------------------------------------

  /** The exact condition: a verified piece fills its own tile when its offset fits in 32
      bits, and leaves it untouched -- although it counts as completed -- when it does not. */
  lemma TileWrittenIffOffsetFits(cfg: Config, s: State, piece: nat, data: seq<byte>)
    requires cfg.Ok() && |s.completed| == cfg.PiecesCnt() && |s.disk| == cfg.torrentSize
    requires piece < cfg.PiecesCnt() && |data| == cfg.PieceLen(piece) && cfg.Verified(data, piece)
    ensures var s' := FinishPiece(cfg, s, piece, data);
      && s'.completed[piece]
      && cfg.Tile(s'.disk, piece)
         == if piece * cfg.pieceSize < TWO_TO_32 then data else cfg.Tile(s.disk, piece)
  {
    hide ToUint32, Splice, CeilDiv, ChunkLen;
    ChunkFits(cfg.torrentSize, cfg.pieceSize, piece);
    WriteFits(cfg, piece);
    if piece * cfg.pieceSize < TWO_TO_32 {
      TileOfSplice(cfg, s.disk, piece, data, piece);
    } else {
      var lo := piece * cfg.pieceSize;
      SpliceWindows(s.disk, cfg.DiskOffset(piece), data, lo, lo + cfg.PieceLen(piece));
    }
  }

  /** The condition on the configuration is the same one, piece by piece. */
  lemma OffsetsFitIffEachFits(cfg: Config)
    requires cfg.Ok()
    ensures cfg.OffsetsFit() <==> forall i: nat :: i < cfg.PiecesCnt() ==> cfg.DiskOffset(i) == i * cfg.pieceSize
  {
    hide CeilDiv;
    if cfg.OffsetsFit() {
      forall i: nat | i < cfg.PiecesCnt() ensures cfg.DiskOffset(i) == i * cfg.pieceSize {
        FitsEverywhere(cfg, i);
      }
    } else {
      assert cfg.DiskOffset(cfg.PiecesCnt() - 1) < TWO_TO_32;
    }
  }

  // ----- progress ----------------------------------------------------------

  /** Total length of the completed pieces among the first n. */
  ghost function VerifiedBytes(cfg: Config, completed: seq<bool>, n: nat): nat
    requires cfg.Ok() && n <= |completed| <= cfg.PiecesCnt()
  {
    if n == 0 then 0
    else VerifiedBytes(cfg, completed, n - 1) + (if completed[n - 1] then cfg.PieceLen(n - 1) else 0)
  }

  function DownloadedBytes(cfg: Config, s: State): int
    requires cfg.Ok()
  {
    (cfg.PiecesCnt() - s.left) * cfg.pieceSize
  }

  /** The reported number counts a full piece for each completed one; it overshoots by
      the last piece's shortfall, and only once that piece is in. */
  lemma DownloadedBytesOvershoot(cfg: Config, s: State)
    requires cfg.Ok() && Inv(cfg, s)
    ensures var n := cfg.PiecesCnt();
      DownloadedBytes(cfg, s) == VerifiedBytes(cfg, s.completed, n)
        + (if n > 0 && s.completed[n - 1] then cfg.pieceSize - cfg.PieceLen(n - 1) else 0)
  {
    var n := cfg.PiecesCnt();
    assert s.completed[..n] == s.completed;
    if n > 0 {
      FullPieces(cfg, s.completed, n - 1);
      assert s.completed[..n][..n - 1] == s.completed[..n - 1];
      var done := n - 1 - CountFalse(s.completed[..n - 1]);
      assert (done + 1) * cfg.pieceSize == done * cfg.pieceSize + cfg.pieceSize;
    }
  }

  lemma {:induction false} FullPieces(cfg: Config, completed: seq<bool>, n: nat)
    requires cfg.Ok() && n < |completed| == cfg.PiecesCnt()
    ensures VerifiedBytes(cfg, completed, n) == (n - CountFalse(completed[..n])) * cfg.pieceSize
  {
    if n > 0 {
      FullPieces(cfg, completed, n - 1);
      assert completed[..n][..n - 1] == completed[..n - 1];
      var done := n - 1 - CountFalse(completed[..n - 1]);
      assert (done + 1) * cfg.pieceSize == done * cfg.pieceSize + cfg.pieceSize;
    }
  }
}
