/** Endgame mode: its list of requests is exact when it begins, stays sufficient
    while no piece is thrown away, and no peer loses track of a block on it. */
module Endgame {
  import opened Prelude
  import opened Layout
  import opened Pieces
  import opened Engine
  import opened Window
  import opened Download

  /** Every incomplete piece is in progress, and every block it misses is on the list. */
  ghost predicate Covered(s: State) {
    && s.requested.Keys == Incomplete(s.completed)
    && forall p, b :: p in s.requested && b in s.requested[p].open ==>
         Block(p, b * BLOCK_SIZE, BLOCK_SIZE) in s.endgameRequests
  }

  /** r asks, at full block size, for a block the client does not have. */
  ghost predicate Missing(cfg: Config, s: State, r: Block)
    requires cfg.Ok() && |s.completed| == cfg.PiecesCnt()
  {
    && r.piece < cfg.PiecesCnt() && r.offset / BLOCK_SIZE < BlocksIn(cfg.PieceLen(r.piece))
    && r == Block(r.piece, r.offset / BLOCK_SIZE * BLOCK_SIZE, BLOCK_SIZE)
    && !IsReceived(cfg, s, r.piece, r.offset)
  }

  /** On entry the pieces in progress are all the incomplete ones, and the list holds
      exactly the missing blocks, each once. */
  lemma EntryIsExact(cfg: Config, s: State, e: Event, s': State)
    requires cfg.Ok() && Inv(cfg, s) && Step(cfg, s, e, s') && Inv(cfg, s')
    requires !s.endgame && s'.endgame
    ensures Covered(s') && NoDup(s'.endgameRequests)
    ensures forall r :: r in s'.endgameRequests <==> Missing(cfg, s', r)
  {
    RequestedWithinIncomplete(cfg, s');
    assert e.BlockAsked? && ListsOpenBlocks(s'.requested, s'.endgameRequests);
    forall r ensures r in s'.endgameRequests <==> Missing(cfg, s', r) {
      ListedIffMissing(cfg, s', r);
    }
  }

  lemma ListedIffMissing(cfg: Config, s: State, r: Block)
    requires cfg.Ok() && Inv(cfg, s) && s.requested.Keys == Incomplete(s.completed)
    requires ListsOpenBlocks(s.requested, s.endgameRequests)
    ensures r in s.endgameRequests <==> Missing(cfg, s, r)
  {
    var b := r.offset / BLOCK_SIZE;
    if r in s.endgameRequests {
      assert OpenRequest(s.requested, r) && RequestedOk(cfg, s, r.piece);
    }
    if Missing(cfg, s, r) {
      assert r.piece in Incomplete(s.completed);
      assert Block(r.piece, b * BLOCK_SIZE, BLOCK_SIZE) in s.endgameRequests;
    }
  }

  /** The step completes a piece whose data fails the check. */
  ghost predicate Mismatch(cfg: Config, s: State, e: Event)
    requires cfg.Ok() && Inv(cfg, s)
  {
    && e.BlockArrived? && e.piece in s.requested
    && Arrives(s.requested[e.piece], e.offset, |e.block|)
    && var p := Receive(s.requested[e.piece], e.block, e.offset);
       p.open == [] && cfg.digest(p.data) != cfg.RefHash(e.piece)
  }

  /** Without a mismatch, an arrival marks its own block received and forgets no other. */
  lemma ArrivalReceives(cfg: Config, s: State, piece: nat, block: seq<byte>, offset: nat, p: nat, off: nat)
    requires cfg.Ok() && Inv(cfg, s) && p < cfg.PiecesCnt()
    requires piece in s.requested ==> Arrives(s.requested[piece], offset, |block|)
    requires !Mismatch(cfg, s, BlockArrived(piece, block, offset))
    ensures var s' := AcceptBlock(cfg, s, piece, block, offset);
      |s'.completed| == |s.completed| && (IsReceived(cfg, s', p, off) <==>
        IsReceived(cfg, s, p, off) || (p == piece && p in s.requested && off / BLOCK_SIZE == offset / BLOCK_SIZE))
  {
    StateSizes(cfg, s);
    if piece in s.requested {
      RequestedPiece(cfg, s, piece);
      ReceiveOk(s.requested[piece], cfg.PieceLen(piece), block, offset);
      var q := Receive(s.requested[piece], block, offset);
      if q.open == [] {
        FinishCompletes(cfg, s, piece, q.data);
      }
      hide Inv, PieceOk, Receive, FinishPiece, CeilDiv, ChunkLen, Config.Ok, Config.Verified, IsPermutation, Ordered;
      assert IsReceived(cfg, AcceptBlock(cfg, s, piece, block, offset), p, off) <==>
        IsReceived(cfg, s, p, off) || (p == piece && off / BLOCK_SIZE == offset / BLOCK_SIZE);
    }
  }

  /** The list stays sufficient over every step that throws no piece away. */
  lemma StepKeepsCovered(cfg: Config, s: State, e: Event, s': State)
    requires cfg.Ok() && Inv(cfg, s) && Step(cfg, s, e, s') && Inv(cfg, s')
    requires s.endgame && Covered(s) && !Mismatch(cfg, s, e)
    ensures s'.endgame && Covered(s') && s'.endgameRequests == s.endgameRequests
  {
    match e
    case PeerJoined(_) =>
    case PeerLeft(_) =>
    case PeerHas(_) =>
    case BlockArrived(piece, block, offset) =>
      if piece in s.requested {
        ArrivalKeepsCovered(cfg, s, piece, block, offset);
      }
    case BlockAsked(bits, now, answer) =>
      if answer.Some? {
        AskKeepsCovered(cfg, s, bits, now, s', answer.value);
      }
  }

  lemma ArrivalKeepsCovered(cfg: Config, s: State, piece: nat, block: seq<byte>, offset: nat)
    requires cfg.Ok() && Inv(cfg, s) && Covered(s) && piece in s.requested
    requires Arrives(s.requested[piece], offset, |block|) && !Mismatch(cfg, s, BlockArrived(piece, block, offset))
    ensures var s' := AcceptBlock(cfg, s, piece, block, offset);
      Covered(s') && s'.endgame == s.endgame && s'.endgameRequests == s.endgameRequests
  {
    var s' := AcceptBlock(cfg, s, piece, block, offset);
    var q := Receive(s.requested[piece], block, offset);
    StateSizes(cfg, s);
    RequestedPiece(cfg, s, piece);
    ReceiveOk(s.requested[piece], cfg.PieceLen(piece), block, offset);
    if q.open == [] {
      FinishCompletes(cfg, s, piece, q.data);
    }
    hide Inv, PieceOk, Receive, FinishPiece, CeilDiv, ChunkLen, Config.Ok, IsPermutation, Ordered, InTorrent;
    if q.open == [] {
      assert Incomplete(s'.completed) == Incomplete(s.completed) - {piece};
      assert s'.requested.Keys == s.requested.Keys - {piece};
    } else {
      assert s'.requested.Keys == s.requested.Keys;
    }
  }

  lemma AskKeepsCovered(cfg: Config, s: State, bits: seq<bool>, now: Clock, s': State, block: Block)
    requires cfg.Ok() && Inv(cfg, s) && Covered(s) && Answers(cfg, s, bits, now, s', Some(block))
    ensures Covered(s') && s'.endgame == s.endgame && s'.endgameRequests == s.endgameRequests
  {
    assert block.piece in Incomplete(s.completed);
    assert s'.requested.Keys == s.requested.Keys;
    assert s'.requested[block.piece].open == s.requested[block.piece].open;
    forall p | p in s'.requested ensures s'.requested[p].open == s.requested[p].open {
    }
  }

  // ----- the peers' windows ------------------------------------------------

  /** What one peer does, and what the others do meanwhile.  Which requests expire is left open. */
  datatype PeerEvent =
    | Refresh(stays: Entry -> bool, goes: Entry -> bool, cancelled: seq<Block>)
    | Load(n: nat, from: int, to: int)
    | OwnBlock(piece: nat, data: seq<byte>, offset: nat)
    | Elsewhere(event: Event)

  ghost predicate PeerStep(cfg: Config, s: State, w: Window, e: PeerEvent, s': State, w': Window)
    requires cfg.Ok() && Inv(cfg, s)
  {
    match e
    case Refresh(stays, goes, cancelled) =>
      s' == s && Refreshed(w, Got(cfg, s), stays, goes, w', cancelled)
    case Load(n, from, to) => s' == s && Loaded(w, n, from, to, w')
    case OwnBlock(piece, data, offset) =>
      && Step(cfg, s, BlockArrived(piece, data, offset), s')
      && Answered(w, Block(piece, offset, |data|), w')
    case Elsewhere(event) => Step(cfg, s, event, s') && w' == w
  }

  ghost predicate Discards(cfg: Config, s: State, e: PeerEvent)
    requires cfg.Ok() && Inv(cfg, s)
  {
    || (e.OwnBlock? && Mismatch(cfg, s, BlockArrived(e.piece, e.data, e.offset)))
    || (e.Elsewhere? && Mismatch(cfg, s, e.event))
  }

  /** The block is received, or the peer still has it in its window. */
  ghost predicate Tracked(cfg: Config, s: State, w: Window, r: Block) {
    r.piece < |s.completed| && (IsReceived(cfg, s, r.piece, r.offset) || Holds(w, r) > 0)
  }

  /** The peer keeps track of every listed block among its pieces. */
  ghost predicate TracksAll(cfg: Config, s: State, bits: seq<bool>, w: Window) {
    forall r :: r in s.endgameRequests && r.piece < |bits| && bits[r.piece] ==> Tracked(cfg, s, w, r)
  }

  /** On entering the endgame loop the peer's remaining blocks are the listed ones it can serve. */
  lemma EntryTracksAll(cfg: Config, s: State, bits: seq<bool>, w: Window)
    requires cfg.Ok() && Inv(cfg, s)
    requires Sifted(w.remaining, s.endgameRequests, OwnedBy(bits))
    ensures TracksAll(cfg, s, bits, w)
  {
    forall r | r in s.endgameRequests && r.piece < |bits| && bits[r.piece] ensures Tracked(cfg, s, w, r) {
      assert InTorrent(cfg, r);
      assert multiset(s.endgameRequests)[r] > 0;
    }
  }

  /** No step of this peer or of another loses a block. */
  lemma StepTracksAll(cfg: Config, s: State, bits: seq<bool>, w: Window, e: PeerEvent, s': State, w': Window)
    requires cfg.Ok() && Inv(cfg, s) && PeerStep(cfg, s, w, e, s', w') && Inv(cfg, s')
    requires s.endgame && Covered(s) && TracksAll(cfg, s, bits, w) && !Discards(cfg, s, e)
    ensures s'.endgame && Covered(s') && s'.endgameRequests == s.endgameRequests
    ensures TracksAll(cfg, s', bits, w')
  {
    if e.OwnBlock? {
      StepKeepsCovered(cfg, s, BlockArrived(e.piece, e.data, e.offset), s');
    } else if e.Elsewhere? {
      StepKeepsCovered(cfg, s, e.event, s');
    }
    forall r | r in s'.endgameRequests && r.piece < |bits| && bits[r.piece] ensures Tracked(cfg, s', w', r) {
      assert Tracked(cfg, s, w, r);
      StepTracks(cfg, s, w, e, s', w', r);
    }
  }

  lemma StepTracks(cfg: Config, s: State, w: Window, e: PeerEvent, s': State, w': Window, r: Block)
    requires cfg.Ok() && Inv(cfg, s) && PeerStep(cfg, s, w, e, s', w') && Inv(cfg, s')
    requires Covered(s) && Tracked(cfg, s, w, r) && !Discards(cfg, s, e)
    ensures Tracked(cfg, s', w', r)
  {
    match e
    case Refresh(_, _, _) =>
    case Load(_, _, _) =>
    case OwnBlock(piece, data, offset) => OwnBlockTracks(cfg, s, w, piece, data, offset, w', r);
    case Elsewhere(event) => if IsReceived(cfg, s, r.piece, r.offset) {
        StepKeepsReceived(cfg, s, event, s', r.piece, r.offset);
      }
  }

  /** A settled request was for a block the client now has: the arrival marked it received,
      or it had been received before. */
  lemma OwnBlockTracks(cfg: Config, s: State, w: Window, piece: nat, data: seq<byte>, offset: nat, w': Window, r: Block)
    requires cfg.Ok() && Inv(cfg, s) && |s.completed| == cfg.PiecesCnt()
    requires piece in s.requested ==> Arrives(s.requested[piece], offset, |data|)
    requires !Mismatch(cfg, s, BlockArrived(piece, data, offset))
    requires Answered(w, Block(piece, offset, |data|), w')
    requires Covered(s) && Tracked(cfg, s, w, r)
    ensures Tracked(cfg, AcceptBlock(cfg, s, piece, data, offset), w', r)
  {
    ArrivalReceives(cfg, s, piece, data, offset, r.piece, r.offset);
    hide Inv, AcceptBlock, Mismatch, Answered, Holds;
    AnsweredHolds(w, Block(piece, offset, |data|), w', r);
    if !s.completed[r.piece] {
      assert r.piece in Incomplete(s.completed);
    }
  }

  lemma StepKeepsReceived(cfg: Config, s: State, e: Event, s': State, p: nat, off: nat)
    requires cfg.Ok() && Inv(cfg, s) && Step(cfg, s, e, s') && Inv(cfg, s') && p < cfg.PiecesCnt()
    requires !Mismatch(cfg, s, e) && IsReceived(cfg, s, p, off)
    ensures IsReceived(cfg, s', p, off)
  {
    hide Ordered, IsPermutation, RequestedOk, InTorrent, CanYield, AdjustAvail, Reordered, CeilDiv;
    if e.BlockArrived? {
      ArrivalReceives(cfg, s, e.piece, e.block, e.offset, p, off);
    }
  }

  // ----- whole runs --------------------------------------------------------

  datatype PeerTransition = PeerTransition(event: PeerEvent, after: State, window: Window)

  lemma PeerStepKeepsInv(cfg: Config, s: State, w: Window, e: PeerEvent, s': State, w': Window)
    requires cfg.Ok() && Inv(cfg, s) && PeerStep(cfg, s, w, e, s', w')
    ensures Inv(cfg, s')
  {
    if e.OwnBlock? {
      StepKeepsInv(cfg, s, BlockArrived(e.piece, e.data, e.offset), s');
    } else if e.Elsewhere? {
      StepKeepsInv(cfg, s, e.event, s');
    }
  }

  /** An interleaving of this peer's steps with everyone else's in which no piece is thrown away. */
  ghost predicate Interleaving(cfg: Config, s: State, w: Window, steps: seq<PeerTransition>, t: State, v: Window)
    requires cfg.Ok() && Inv(cfg, s)
    decreases |steps|
  {
    if steps == [] then t == s && v == w
    else
      var next := steps[0];
      && PeerStep(cfg, s, w, next.event, next.after, next.window) && !Discards(cfg, s, next.event)
      && (PeerStepKeepsInv(cfg, s, w, next.event, next.after, next.window);
          Interleaving(cfg, next.after, next.window, steps[1..], t, v))
  }

  /** Over any such interleaving, the list still covers every missing block and the peer has
      lost none of its own: each is received, still to be asked for, or asked for. */
  lemma {:induction false} NoBlockIsLost(cfg: Config, s: State, bits: seq<bool>, w: Window,
                                         steps: seq<PeerTransition>, t: State, v: Window)
    requires cfg.Ok() && Inv(cfg, s) && Interleaving(cfg, s, w, steps, t, v)
    requires s.endgame && Covered(s) && TracksAll(cfg, s, bits, w)
    ensures Inv(cfg, t) && t.endgame && Covered(t) && t.endgameRequests == s.endgameRequests
    ensures TracksAll(cfg, t, bits, v)
    decreases |steps|
  {
    if steps != [] {
      var next := steps[0];
      PeerStepKeepsInv(cfg, s, w, next.event, next.after, next.window);
      StepTracksAll(cfg, s, bits, w, next.event, next.after, next.window);
      NoBlockIsLost(cfg, next.after, bits, next.window, steps[1..], t, v);
    }
  }

  /** When the list covers the state, every missing block can still be asked for from it. */
  lemma CoveredListsMissing(cfg: Config, s: State, r: Block)
    requires cfg.Ok() && Inv(cfg, s) && Covered(s) && Missing(cfg, s, r)
    ensures r in s.endgameRequests
  {
    assert r.piece in Incomplete(s.completed);
  }

  // ----- after a mismatch --------------------------------------------------

  /** A failed check in endgame mode drops the piece from the pieces in progress. */
  lemma MismatchDrops(cfg: Config, s: State, e: Event, s': State)
    requires cfg.Ok() && Inv(cfg, s) && Step(cfg, s, e, s') && Mismatch(cfg, s, e)
    ensures e.piece !in s'.requested && e.piece < |s'.completed| && !s'.completed[e.piece]
  {
    RequestedPiece(cfg, s, e.piece);
  }

  /** The exact condition: in endgame mode a step keeps the list sufficient if and only if
      it does not throw a piece away. */
  lemma CoveredIffNoMismatch(cfg: Config, s: State, e: Event, s': State)
    requires cfg.Ok() && Inv(cfg, s) && Step(cfg, s, e, s') && Inv(cfg, s')
    requires s.endgame && Covered(s)
    ensures Covered(s') <==> !Mismatch(cfg, s, e)
  {
    hide Inv, Step;
    if Mismatch(cfg, s, e) {
      MismatchDrops(cfg, s, e, s');
      assert e.piece in Incomplete(s'.completed);
    } else {
      StepKeepsCovered(cfg, s, e, s');
    }
  }

  /** From then on, over any run in which the peers ask for no next block once in endgame
      mode, the dropped piece stays dropped whatever arrives, and the download never completes. */
  lemma {:induction false} DroppedStaysDropped(cfg: Config, s: State, steps: seq<Transition>, t: State, p: nat)
    requires cfg.Ok() && Inv(cfg, s) && Leads(cfg, s, steps, t) && Gated(s, steps) && s.endgame
    requires p < |s.completed| && !s.completed[p] && p !in s.requested
    ensures Inv(cfg, t) && t.endgame && p < |t.completed| && !t.completed[p] && p !in t.requested && t.left != 0
    decreases |steps|
  {
    hide Inv, Step;
    if steps == [] {
      AllTrue(s.completed);
      LeftIsCount(cfg, s);
    } else {
      var e, s' := steps[0].event, steps[0].after;
      StepKeepsInv(cfg, s, e, s');
      EndgameIsOneWay(cfg, s, e, s');
      StepKeepsDropped(cfg, s, e, s', p);
      DroppedStaysDropped(cfg, s', steps[1..], t, p);
    }
  }

  lemma StepKeepsDropped(cfg: Config, s: State, e: Event, s': State, p: nat)
    requires cfg.Ok() && Inv(cfg, s) && Step(cfg, s, e, s') && !e.BlockAsked?
    requires p < |s.completed| && !s.completed[p] && p !in s.requested
    ensures p < |s'.completed| && !s'.completed[p] && p !in s'.requested
  {
    hide RequestedOk, InTorrent, IsPermutation, Ordered, AdjustAvail, Reordered, CeilDiv, ChunkLen, Receive, Splice;
    match e
    case BlockArrived(piece, block, offset) =>
      if piece in s.requested {
        RequestedPiece(cfg, s, piece);
      }
    case _ =>
  }

  // ----- from the start ----------------------------------------------------

  /** No piece fails its check once endgame mode has begun. */
  ghost predicate NoLateMismatch(cfg: Config, s: State, steps: seq<Transition>)
    requires cfg.Ok() && Inv(cfg, s)
    decreases |steps|
  {
    steps == [] || (Step(cfg, s, steps[0].event, steps[0].after)
                    && (StepKeepsInv(cfg, s, steps[0].event, steps[0].after);
                        (s.endgame ==> !Mismatch(cfg, s, steps[0].event))
                        && NoLateMismatch(cfg, steps[0].after, steps[1..])))
  }

  /** The exact condition over whole runs in which asks come only before endgame mode: from any
      state whose list is sufficient, the list is sufficient at the end if and only if no piece
      failed its check after endgame mode began. */
  lemma {:induction false} ListSufficesIff(cfg: Config, s: State, steps: seq<Transition>, t: State)
    requires cfg.Ok() && Inv(cfg, s) && Leads(cfg, s, steps, t) && Gated(s, steps) && (s.endgame ==> Covered(s))
    ensures Inv(cfg, t) && ((t.endgame ==> Covered(t)) <==> NoLateMismatch(cfg, s, steps))
    decreases |steps|
  {
    hide Inv, Step, Covered, Mismatch;
    if steps != [] {
      var e, s' := steps[0].event, steps[0].after;
      StepKeepsInv(cfg, s, e, s');
      if s.endgame && Mismatch(cfg, s, e) {
        MismatchIsForGood(cfg, s, e, s', steps[1..], t);
      } else {
        StepSuffices(cfg, s, e, s');
        ListSufficesIff(cfg, s', steps[1..], t);
      }
    }
  }

  /** Without a late mismatch asks may come at any time. */
  lemma {:induction false} ListSuffices(cfg: Config, s: State, steps: seq<Transition>, t: State)
    requires cfg.Ok() && Inv(cfg, s) && Leads(cfg, s, steps, t) && NoLateMismatch(cfg, s, steps)
    requires s.endgame ==> Covered(s)
    ensures Inv(cfg, t) && (t.endgame ==> Covered(t))
    decreases |steps|
  {
    hide Inv, Step, Covered, Mismatch;
    if steps != [] {
      var e, s' := steps[0].event, steps[0].after;
      StepKeepsInv(cfg, s, e, s');
      StepSuffices(cfg, s, e, s');
      ListSuffices(cfg, s', steps[1..], t);
    }
  }

  lemma StepSuffices(cfg: Config, s: State, e: Event, s': State)
    requires cfg.Ok() && Inv(cfg, s) && Step(cfg, s, e, s') && Inv(cfg, s')
    requires s.endgame ==> Covered(s) && !Mismatch(cfg, s, e)
    ensures s'.endgame ==> Covered(s')
  {
    hide Inv, Step, Covered, Mismatch;
    if s.endgame {
      StepKeepsCovered(cfg, s, e, s');
    } else if s'.endgame {
      EntryIsExact(cfg, s, e, s');
    }
  }

  lemma MismatchIsForGood(cfg: Config, s: State, e: Event, s': State, steps: seq<Transition>, t: State)
    requires cfg.Ok() && Inv(cfg, s) && Step(cfg, s, e, s') && Inv(cfg, s') && Mismatch(cfg, s, e) && s.endgame
    requires Leads(cfg, s', steps, t) && Gated(s', steps)
    ensures Inv(cfg, t) && t.endgame && !Covered(t)
  {
    hide Inv, Step, Leads;
    MismatchDrops(cfg, s, e, s');
    EndgameIsOneWay(cfg, s, e, s');
    DroppedStaysDropped(cfg, s', steps, t, e.piece);
    assert e.piece in Incomplete(t.completed);
  }

  ghost predicate ReachableWithoutLoss(cfg: Config, steps: seq<Transition>, s: State)
    requires cfg.Ok()
  {
    InitInv(cfg);
    Reachable(cfg, steps, s) && NoLateMismatch(cfg, Init(cfg), steps)
  }

  /** A peer may enter the endgame loop at any state of any run from the start: as long as no
      piece has failed its check in endgame mode and none does from then on, whatever is done
      meanwhile by anyone, each missing block of its pieces is in its window. */
  lemma EnteringPeerHoldsAll(cfg: Config, steps: seq<Transition>, s: State, bits: seq<bool>, w: Window,
                             more: seq<PeerTransition>, t: State, v: Window)
    requires cfg.Ok() && ReachableWithoutLoss(cfg, steps, s)
    requires s.endgame && Sifted(w.remaining, s.endgameRequests, OwnedBy(bits))
    requires Inv(cfg, s) && Interleaving(cfg, s, w, more, t, v)
    ensures Inv(cfg, t) && t.endgame && Covered(t) && TracksAll(cfg, t, bits, v)
    ensures forall r :: Missing(cfg, t, r) && r.piece < |bits| && bits[r.piece] ==> Holds(v, r) > 0
  {
    hide Inv, Step, Leads, Interleaving, Covered, Missing;
    InitInv(cfg);
    ListSuffices(cfg, Init(cfg), steps, s);
    EntryTracksAll(cfg, s, bits, w);
    NoBlockIsLost(cfg, s, bits, w, more, t, v);
    forall r | Missing(cfg, t, r) && r.piece < |bits| && bits[r.piece] ensures Holds(v, r) > 0 {
      CoveredListsMissing(cfg, t, r);
      MissingIsNotReceived(cfg, t, r);
      assert Tracked(cfg, t, v, r);
    }
  }

  lemma MissingIsNotReceived(cfg: Config, s: State, r: Block)
    requires cfg.Ok() && |s.completed| == cfg.PiecesCnt() && Missing(cfg, s, r)
    ensures r.piece < |s.completed| && !IsReceived(cfg, s, r.piece, r.offset)
  {
  }
}
