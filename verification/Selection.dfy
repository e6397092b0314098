/** What a peer is asked for: the rarest-first contract of one request. */
module Selection {
  import opened Prelude
  import opened Layout
  import opened Pieces
  import opened Engine
  import opened Download

  /** A piece just started always has a block to give: its first. */
  lemma FreshPieceYields(size: nat, clock: nat -> int, timeout: int)
    requires 1 <= size <= MAX_PIECE_SIZE
    ensures NextBlock(FreshPiece(size).open, FreshPiece(size).requestTime, clock, timeout) == Some(0)
  {
    FreshPieceOk(size);
    var p := FreshPiece(size);
    assert Requestable(p.requestTime, p.open[0], clock(p.open[0]), timeout);
  }

  /** The block names a whole missing block of its piece that nobody was asked for
      recently, and in the new state it counts as asked for now. */
  ghost predicate FreshlyAsked(cfg: Config, s: State, now: Clock, s': State, block: Block)
    requires cfg.Ok() && block.piece < cfg.PiecesCnt()
  {
    var b := block.offset / BLOCK_SIZE;
    var p := Candidate(cfg, s, block.piece);
    && b in p.open && Requestable(p.requestTime, b, now.read(block.piece)(b), cfg.timeout)
    && b < BlocksIn(cfg.PieceLen(block.piece))
    && block == Block(block.piece, b * BLOCK_SIZE, ChunkLen(cfg.PieceLen(block.piece), BLOCK_SIZE, b))
    && block.piece in s'.requested && s'.requested[block.piece] == p.(requestTime := p.requestTime[b := now.stamp])
  }

  /** No piece that could have yielded a block is rarer. */
  ghost predicate NoneRarer(cfg: Config, s: State, bits: seq<bool>, now: Clock, piece: nat)
    requires cfg.pieceSize > 0 && piece < |s.avail|
  {
    forall q: nat :: q < |s.avail| && CanYield(cfg, s, bits, now, q) ==> s.avail[piece] <= s.avail[q]
  }

  /** The block belongs to an incomplete piece the peer has.  At most that one piece is
      started, and only below the cap. */
  lemma GrantedBlock(cfg: Config, s: State, bits: seq<bool>, now: Clock, s': State, block: Block)
    requires cfg.Ok() && Inv(cfg, s) && |bits| >= cfg.PiecesCnt()
    requires Answers(cfg, s, bits, now, s', Some(block))
    ensures block.piece < cfg.PiecesCnt() == |s.completed| == |s.avail|
    ensures !s.completed[block.piece] && bits[block.piece]
    ensures FreshlyAsked(cfg, s, now, s', block)
    ensures s'.requested.Keys == s.requested.Keys + {block.piece}
    ensures forall q :: q in s.requested && q != block.piece ==> s'.requested[q] == s.requested[q]
    ensures block.piece !in s.requested ==> |s.requested| < cfg.Cap()
  {
    hide RequestedOk, InTorrent, NextBlock, CeilDiv, FreshlyAsked, Ordered;
    FreshlyTaken(cfg, s, block.piece, now, s', block);
  }

  /** A list believed to be sorted is. */
  ghost predicate OrderHolds(s: State) {
    s.isSorted ==> Ordered(s.sorted, s.avail)
  }

  /** Rarest first: when the order holds -- in particular when the list is sorted in this very
      call -- no piece that could have yielded a block is rarer. */
  lemma RarestFirst(cfg: Config, s: State, bits: seq<bool>, now: Clock, s': State, block: Block)
    requires cfg.Ok() && Inv(cfg, s) && |bits| >= cfg.PiecesCnt() && OrderHolds(s)
    requires Answers(cfg, s, bits, now, s', Some(block))
    ensures block.piece < |s.avail| && NoneRarer(cfg, s, bits, now, block.piece)
  {
    hide RequestedOk, InTorrent, NextBlock, CeilDiv, NoneRarer, Ordered;
    var order := s'.sorted;
    var k :| 0 <= k < |order| && order[k] == block.piece && CanYield(cfg, s, bits, now, block.piece)
          && forall j :: 0 <= j < k ==> !CanYield(cfg, s, bits, now, order[j]);
    FirstIsRarest(cfg, s, bits, now, order, k);
  }

  lemma FirstIsRarest(cfg: Config, s: State, bits: seq<bool>, now: Clock, order: seq<nat>, k: nat)
    requires cfg.pieceSize > 0 && IsPermutation(order, |s.avail|) && Ordered(order, s.avail)
    requires k < |order| && forall j :: 0 <= j < k ==> !CanYield(cfg, s, bits, now, order[j])
    ensures NoneRarer(cfg, s, bits, now, order[k])
  {
    hide CanYield, IsPermutation;
    PermutationIndices(order, |s.avail|);
    forall q: nat | q < |s.avail| && CanYield(cfg, s, bits, now, q)
      ensures s.avail[order[k]] <= s.avail[q]
    {
      var i := IndexOf(order, q);
    }
  }

  lemma FreshlyTaken(cfg: Config, s: State, piece: nat, now: Clock, s': State, block: Block)
    requires cfg.Ok() && piece < cfg.PiecesCnt()
    requires exists t: State :: t.requested == s.requested && TakesBlock(cfg, t, piece, now, s', block)
    ensures block.piece == piece && FreshlyAsked(cfg, s, now, s', block)
    ensures s'.requested.Keys == s.requested.Keys + {piece}
    ensures forall q :: q in s.requested && q != piece ==> s'.requested[q] == s.requested[q]
  {
    var t: State :| t.requested == s.requested && TakesBlock(cfg, t, piece, now, s', block);
    assert Candidate(cfg, t, piece) == Candidate(cfg, s, piece);
  }

  // ----- asking for the same block again -----------------------------------

  /** Block b of piece p was last asked for at `first` or later. */
  ghost predicate AskedSince(s: State, p: nat, b: nat, first: int) {
    && p in s.requested && b < |s.requested[p].requestTime|
    && s.requested[p].requestTime[b] != TIME_MIN && s.requested[p].requestTime[b] >= first
  }

  ghost predicate NotBefore(steps: seq<Transition>, first: int) {
    forall k :: 0 <= k < |steps| && steps[k].event.BlockAsked? ==> steps[k].event.now.stamp >= first
  }

  lemma StepKeepsAsked(cfg: Config, s: State, e: Event, s': State, p: nat, b: nat, first: int)
    requires cfg.Ok() && Inv(cfg, s) && Step(cfg, s, e, s') && AskedSince(s, p, b, first)
    requires p in s'.requested && (e.BlockAsked? ==> e.now.stamp >= first)
    ensures AskedSince(s', p, b, first)
  {
    hide Inv, IsPermutation, Ordered, CanYield, ListsOpenBlocks, AdjustAvail;
    hide Reordered, CeilDiv, ChunkLen, Splice, NextBlock;
  }

  lemma {:induction false} RunKeepsAsked(cfg: Config, s: State, steps: seq<Transition>, t: State, p: nat,
                                         b: nat, first: int)
    requires cfg.Ok() && Inv(cfg, s) && Leads(cfg, s, steps, t) && AskedSince(s, p, b, first)
    requires InProgressThroughout(steps, p) && NotBefore(steps, first)
    ensures Inv(cfg, t) && AskedSince(t, p, b, first)
    decreases |steps|
  {
    hide Inv, Step, AskedSince;
    if steps != [] {
      StepKeepsInv(cfg, s, steps[0].event, steps[0].after);
      StepKeepsAsked(cfg, s, steps[0].event, steps[0].after, p, b, first);
      RunKeepsAsked(cfg, steps[0].after, steps[1..], t, p, b, first);
    }
  }

  /** Two grants of the same block are more than the timeout apart, if the clock does not run
      back and the piece was in progress all the while. */
  lemma GrantsAreApart(cfg: Config, s: State, bits: seq<bool>, now: Clock, s1: State, block: Block,
                       steps: seq<Transition>, t: State, bits': seq<bool>, now': Clock, t': State)
    requires cfg.Ok() && Inv(cfg, s) && Step(cfg, s, BlockAsked(bits, now, Some(block)), s1) && Inv(cfg, s1)
    requires Leads(cfg, s1, steps, t) && InProgressThroughout(steps, block.piece) && NotBefore(steps, now.stamp)
    requires Inv(cfg, t) && Step(cfg, t, BlockAsked(bits', now', Some(block)), t')
    ensures now'.read(block.piece)(block.offset / BLOCK_SIZE) - now.stamp > cfg.timeout
  {
    hide Inv, Answers, Leads, CanYield, Requestable, Candidate;
    var b := block.offset / BLOCK_SIZE;
    GrantIsRecorded(cfg, s, bits, now, s1, block);
    RunKeepsAsked(cfg, s1, steps, t, block.piece, b, now.stamp);
    GrantIsDue(cfg, t, bits', now', t', block, now.stamp);
  }

  lemma GrantIsRecorded(cfg: Config, s: State, bits: seq<bool>, now: Clock, s': State, block: Block)
    requires cfg.Ok() && Inv(cfg, s) && |bits| >= cfg.PiecesCnt() && now.stamp > TIME_MIN
    requires Answers(cfg, s, bits, now, s', Some(block))
    ensures AskedSince(s', block.piece, block.offset / BLOCK_SIZE, now.stamp)
  {
    GrantedBlock(cfg, s, bits, now, s', block);
  }

  lemma GrantIsDue(cfg: Config, s: State, bits: seq<bool>, now: Clock, s': State, block: Block, first: int)
    requires cfg.Ok() && Inv(cfg, s) && |bits| >= cfg.PiecesCnt()
    requires Answers(cfg, s, bits, now, s', Some(block)) && AskedSince(s, block.piece, block.offset / BLOCK_SIZE, first)
    ensures now.read(block.piece)(block.offset / BLOCK_SIZE) - first > cfg.timeout
  {
    GrantedBlock(cfg, s, bits, now, s', block);
  }
}
