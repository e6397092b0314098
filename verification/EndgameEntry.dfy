/** When endgame mode begins: the exact condition, what keeps it from beginning, and runs
    that show both, up to a piece that is lost in endgame mode. */
module EndgameEntry {
  import opened Prelude
  import opened Layout
  import opened Pieces
  import opened Engine
  import opened Download
  import opened Runs
  import opened Endgame

  // ----- the exact condition -----------------------------------------------

  /** Every missing block of a piece in progress has been asked for. */
  ghost predicate AllMissingAsked(s: State) {
    forall p, b: nat :: p in s.requested && b in s.requested[p].open && b < |s.requested[p].requestTime| ==>
      s.requested[p].requestTime[b] != TIME_MIN
  }

  /** A block of piece p was received without ever having been asked for. */
  ghost predicate Stray(s: State, p: nat) {
    p in s.requested && exists b: nat :: IsStray(s.requested[p], b)
  }

  ghost predicate IsStray(p: PieceState, b: nat) {
    b < |p.requestTime| && b !in p.open && p.requestTime[b] == TIME_MIN
  }

  /** A refused request begins endgame mode if and only if pieces are left, all of them are
      in progress, every missing block has been asked for, and no block came unasked. */
  lemma EndgameBeginsIff(cfg: Config, s: State, bits: seq<bool>, now: Clock, s': State)
    requires cfg.Ok() && Inv(cfg, s) && !s.endgame && Answers(cfg, s, bits, now, s', None)
    ensures s'.endgame <==>
      && s.left != 0 && s.requested.Keys == Incomplete(s.completed)
      && AllMissingAsked(s) && forall p :: !Stray(s, p)
  {
    RequestedWithinIncomplete(cfg, s);
    CountFalseIsCard(s.completed);
    forall p | p in s.requested
      ensures Unrequested(s.requested[p].requestTime) == 0 <==> FullyAsked(s.requested[p])
    {
      UnrequestedIffAsked(s.requested[p]);
    }
    hide Inv, IsPermutation, Ordered, CanYield, Unrequested;
    assert (AllMissingAsked(s) && forall p :: !Stray(s, p))
      <==> forall p :: p in s.requested ==> FullyAsked(s.requested[p]) by {
      AskedPieceByPiece(s);
    }
  }

  ghost predicate FullyAsked(p: PieceState) {
    forall b: nat :: b < |p.requestTime| ==> p.requestTime[b] != TIME_MIN
  }

  lemma UnrequestedIffAsked(p: PieceState)
    ensures Unrequested(p.requestTime) == 0 <==> FullyAsked(p)
  {
    UnrequestedZero(p.requestTime);
  }

  lemma AskedPieceByPiece(s: State)
    ensures (AllMissingAsked(s) && forall p :: !Stray(s, p))
       <==> forall p :: p in s.requested ==> FullyAsked(s.requested[p])
  {
    if forall p :: !Stray(s, p) {
      forall p, b: nat | p in s.requested && b !in s.requested[p].open && b < |s.requested[p].requestTime|
        ensures s.requested[p].requestTime[b] != TIME_MIN
      {
        if s.requested[p].requestTime[b] == TIME_MIN {
          assert IsStray(s.requested[p], b);
          assert Stray(s, p);
        }
      }
    }
  }

  // ----- a block that came unasked -----------------------------------------

  /** As long as such a piece is in progress, endgame mode does not begin, and the piece
      stays as it is in this respect. */
  lemma StepKeepsStray(cfg: Config, s: State, e: Event, s': State, p: nat)
    requires cfg.Ok() && Inv(cfg, s) && Step(cfg, s, e, s') && !s.endgame && Stray(s, p)
    ensures !s'.endgame
    ensures p in s'.requested ==> Stray(s', p)
  {
    hide RequestedOk, InTorrent, IsPermutation, Ordered, CanYield, AdjustAvail, Reordered, CeilDiv, FinishPiece;
    hide NextBlock, IsStray, EntersEndgameIfDue, Receive;
    match e
    case BlockAsked(bits, now, answer) =>
      if answer == None {
        EndgameBeginsIff(cfg, s, bits, now, s');
        assert s'.requested == s.requested by {
          RefusalKeepsRequested(cfg, s, bits, now, s');
        }
      } else {
        GrantKeepsStray(cfg, s, bits, now, s', answer.value, p);
      }
    case BlockArrived(piece, block, offset) =>
      if piece in s.requested {
        ArrivalKeepsStray(cfg, s, piece, block, offset, p);
      }
    case _ =>
      assert s'.requested == s.requested;
  }

  lemma RefusalKeepsRequested(cfg: Config, s: State, bits: seq<bool>, now: Clock, s': State)
    requires cfg.Ok() && Inv(cfg, s) && Answers(cfg, s, bits, now, s', None)
    ensures s'.requested == s.requested
  {
    hide Inv, IsPermutation, Ordered, CanYield, ListsOpenBlocks;
  }

  lemma GrantKeepsStray(cfg: Config, s: State, bits: seq<bool>, now: Clock, s': State, block: Block, p: nat)
    requires cfg.Ok() && Inv(cfg, s) && Answers(cfg, s, bits, now, s', Some(block)) && Stray(s, p)
    ensures s'.endgame == s.endgame && Stray(s', p)
  {
    hide Inv, IsPermutation, Ordered, CanYield;
    var b: nat :| IsStray(s.requested[p], b);
    assert IsStray(s'.requested[p], b);
  }

  lemma ArrivalKeepsStray(cfg: Config, s: State, piece: nat, block: seq<byte>, offset: nat, p: nat)
    requires cfg.Ok() && Inv(cfg, s) && piece in s.requested && Stray(s, p)
    requires Arrives(s.requested[piece], offset, |block|)
    ensures var s' := AcceptBlock(cfg, s, piece, block, offset);
      s'.endgame == s.endgame && (p in s'.requested ==> Stray(s', p))
  {
    hide InTorrent, IsPermutation, Ordered, CeilDiv, ChunkLen, Splice, SwapRemove, FinishPiece;
    RequestedPiece(cfg, s, piece);
    ReceiveOk(s.requested[piece], cfg.PieceLen(piece), block, offset);
    var s' := AcceptBlock(cfg, s, piece, block, offset);
    FinishCompletes(cfg, s, piece, Receive(s.requested[piece], block, offset).data);
    hide Inv, PieceOk;
    if p in s'.requested {
      var b: nat :| IsStray(s.requested[p], b);
      assert IsStray(s'.requested[p], b);
    }
  }

  /** Over any run: endgame mode does not begin before the piece is out of progress. */
  lemma {:induction false} RunKeepsStray(cfg: Config, s: State, steps: seq<Transition>, t: State, p: nat)
    requires cfg.Ok() && Inv(cfg, s) && Leads(cfg, s, steps, t) && InProgressThroughout(steps, p)
    requires !s.endgame && Stray(s, p)
    ensures !t.endgame && Stray(t, p)
    decreases |steps|
  {
    hide Inv, Step, Stray;
    if steps != [] {
      StepKeepsInv(cfg, s, steps[0].event, steps[0].after);
      StepKeepsStray(cfg, s, steps[0].event, steps[0].after, p);
      RunKeepsStray(cfg, steps[0].after, steps[1..], t, p);
    }
  }

  // ----- a run up to the last piece ----------------------------------------

  /** Every piece but i is completed and nothing is in progress. */
  ghost predicate AllBut(cfg: Config, s: State, i: nat)
    requires cfg.Ok()
  {
    i < cfg.PiecesCnt() && |s.completed| == cfg.PiecesCnt() && Quiet(cfg, s) && DoneBut(s, cfg.PiecesCnt(), i)
  }

  /** The first k of n blocks were asked for at time 0. */
  function AskedFirst(n: nat, k: nat): (ts: seq<int>)
    ensures |ts| == n && forall b :: 0 <= b < n ==> ts[b] == if b < k then 0 else TIME_MIN
  {
    seq(n, b => if b < k then 0 else TIME_MIN)
  }

  /** ... and of piece i just these have been asked for. */
  ghost function LastPiece(cfg: Config, s: State, i: nat, k: nat): State
    requires cfg.Ok() && i < cfg.PiecesCnt()
  {
    AskedAt(cfg, s, i, AskedFirst(BlocksIn(cfg.PieceLen(i)), k))
  }

  lemma NextIs(n: nat, k: nat, i: nat, timeout: int)
    requires k < n && timeout >= 0
    ensures NextBlock(Iota(n), AskedFirst(n, k), StillAt(0).read(i), timeout) == Some(k)
  {
    NextBlockAt(Iota(n), AskedFirst(n, k), StillAt(0).read(i), timeout, k);
  }

  /** The first k blocks of the last piece are asked for, one after the other. */
  lemma {:induction false} AskFirst(cfg: Config, s: State, i: nat, k: nat) returns (steps: seq<Transition>)
    requires cfg.Ok() && cfg.timeout >= 0 && AllBut(cfg, s, i) && 1 <= k <= BlocksIn(cfg.PieceLen(i))
    ensures Inv(cfg, s) && Leads(cfg, s, steps, LastPiece(cfg, s, i, k)) && Inv(cfg, LastPiece(cfg, s, i, k))
    decreases k
  {
    hide Inv, Step, Leads, CeilDiv, ChunkLen, Only, Quiet, AskFor, Ask, BlocksIn, NextBlock;
    var n := BlocksIn(cfg.PieceLen(i));
    var t := LastPiece(cfg, s, i, k);
    QuietInv(cfg, s);
    if k == 1 {
      AskStarts(cfg, s, i);
      assert FreshPiece(cfg.PieceLen(i)).requestTime[0 := 0] == AskedFirst(n, 1);
      assert Only(s, i, Started(cfg.PieceLen(i))) == t;
      StepKeepsInv(cfg, s, Ask(cfg, i), t);
      NothingDone(cfg, t);
      LeadsCons(cfg, s, Ask(cfg, i), t, [], t);
      steps := [Transition(Ask(cfg, i), t)] + [];
    } else {
      var before, e := LastPiece(cfg, s, i, k - 1), AskFor(cfg, i, k - 1, 0);
      var first := AskFirst(cfg, s, i, k - 1);
      NextIs(n, k - 1, i, cfg.timeout);
      GrantIsAStep(cfg, s, i, AskedFirst(n, k - 1), 0, k - 1);
      assert AskedFirst(n, k - 1)[k - 1 := 0] == AskedFirst(n, k);
      StepKeepsInv(cfg, before, e, t);
      LeadsSnoc(cfg, s, first, before, e, t);
      steps := first + [Transition(e, t)];
    }
  }

  lemma NothingDone(cfg: Config, s: State)
    requires cfg.Ok() && Inv(cfg, s)
    ensures Leads(cfg, s, [], s) && Gated(s, [])
  {
  }

  /** From the start, every piece but one can be fetched and blocks of that one be asked for. */
  lemma ReachLastPiece(cfg: Config, content: seq<seq<byte>>, i: nat, k: nat) returns (steps: seq<Transition>, s: State)
    requires cfg.Ok() && cfg.timeout >= 0 && i < cfg.PiecesCnt() && GoodBut(cfg, content, i)
    requires 1 <= k <= BlocksIn(cfg.PieceLen(i))
    ensures AllBut(cfg, s, i) && Reachable(cfg, steps, LastPiece(cfg, s, i, k)) && Inv(cfg, LastPiece(cfg, s, i, k))
  {
    hide Inv, Leads, Quiet, DoneBut, CeilDiv, ChunkLen, Config.Verified, BlocksIn, LastPiece;
    var n := cfg.PiecesCnt();
    FetchAllBut(cfg, content, n, i);
    var first;
    first, s :| Reachable(cfg, first, s) && Quiet(cfg, s) && DoneBut(s, n, i);
    QuietInv(cfg, s);
    StateSizes(cfg, s);
    var more := AskFirst(cfg, s, i, k);
    InitInv(cfg);
    LeadsJoin(cfg, Init(cfg), first, s, more, LastPiece(cfg, s, i, k));
    steps := first + more;
  }

  // ----- refused requests --------------------------------------------------

  /** Only piece i is incomplete; it is in progress as p, and its missing blocks were all asked
      for just now. */
  ghost predicate Waiting(cfg: Config, s: State, i: nat, p: PieceState)
    requires cfg.Ok()
  {
    && Inv(cfg, s) && s.isSorted && !s.endgame && i < |s.completed| && !s.completed[i] && s.requested == map[i := p]
    && forall b :: b in p.open ==> b < |p.requestTime| && p.requestTime[b] == 0
  }

  /** Asking then is refused: endgame mode begins, or nothing changes at all. */
  lemma WaitingIsRefused(cfg: Config, s: State, i: nat, p: PieceState, s': State)
    requires cfg.Ok() && cfg.timeout >= 0 && Waiting(cfg, s, i, p) && EntersEndgameIfDue(s, s')
    ensures Step(cfg, s, BlockAsked(OnlyPiece(cfg.PiecesCnt(), i), StillAt(0), None), s')
  {
    hide CeilDiv, ChunkLen, EntersEndgameIfDue, IsPermutation, Ordered, RequestedOk, InTorrent;
    forall q ensures !CanYield(cfg, s, OnlyPiece(cfg.PiecesCnt(), i), StillAt(0), q) {
    }
    assert s.(sorted := s.sorted, isSorted := true) == s;
    OrderOnEntry(cfg, s);
    AllTrue(s.completed);
    LeftIsCount(cfg, s);
    EndgameKeepsOrder(s, s');
  }

  lemma OrderOnEntry(cfg: Config, s: State)
    requires cfg.Ok() && Inv(cfg, s)
    ensures IsPermutation(s.sorted, cfg.PiecesCnt()) && InRange(s.sorted, |s.avail|)
  {
  }

  lemma EndgameKeepsOrder(s: State, s': State)
    requires EntersEndgameIfDue(s, s')
    ensures s'.sorted == s.sorted && s'.isSorted == s.isSorted
  {
  }

  lemma OnlyIncomplete(cfg: Config, s: State, i: nat)
    requires cfg.Ok() && Inv(cfg, s) && i < |s.completed| && DoneBut(s, |s.completed|, i)
    ensures Incomplete(s.completed) == {i} && s.left == 1
  {
    CountFalseIsCard(s.completed);
    assert Incomplete(s.completed) == {i};
  }

  /** Until endgame mode begins every run is gated. */
  lemma {:induction false} GatedBefore(cfg: Config, s: State, steps: seq<Transition>, t: State)
    requires cfg.Ok() && Inv(cfg, s) && Leads(cfg, s, steps, t) && !t.endgame
    ensures !s.endgame && Gated(s, steps)
    decreases |steps|
  {
    hide Inv, Step;
    if steps != [] {
      StepKeepsInv(cfg, s, steps[0].event, steps[0].after);
      GatedBefore(cfg, steps[0].after, steps[1..], t);
      EndgameIsOneWay(cfg, s, steps[0].event, steps[0].after);
    }
  }

  // ----- a block that came unasked -----------------------------------------

  /** Everything that endgame mode waits for is there: pieces are left, all of them are in
      progress, and every missing block has been asked for.  Yet a request is refused and
      nothing changes. */
  ghost predicate HeldBack(cfg: Config, s: State, i: nat)
    requires cfg.Ok()
  {
    && Inv(cfg, s) && !s.endgame && s.left != 0
    && s.requested.Keys == Incomplete(s.completed) && AllMissingAsked(s)
    && Stray(s, i) && Step(cfg, s, BlockAsked(OnlyPiece(cfg.PiecesCnt(), i), StillAt(0), None), s)
  }

  /** The piece of n blocks whose last one came unasked, the others being asked for. */
  ghost predicate LastCame(p: PieceState, n: nat) {
    n >= 2 && p.open == Iota(n - 1) && p.requestTime == AskedFirst(n, n - 1)
  }

  /** In every torrent, asking for all blocks of a piece but its last while that one comes
      unasked holds endgame mode back, for every piece of two blocks or more. */
  lemma UnaskedBlockHoldsEndgameBack(cfg: Config, content: seq<seq<byte>>, i: nat)
    requires cfg.Ok() && cfg.timeout >= 0 && i < cfg.PiecesCnt() && GoodBut(cfg, content, i)
    requires BlocksIn(cfg.PieceLen(i)) >= 2
    ensures exists steps, s :: Reachable(cfg, steps, s) && HeldBack(cfg, s, i)
  {
    hide Inv, Step, Leads, HeldBack, AllBut, Quiet, CeilDiv, ChunkLen, Config.Verified, BlocksIn, Receive;
    var n, len := BlocksIn(cfg.PieceLen(i)), cfg.PieceLen(i);
    var first, s := ReachLastPiece(cfg, content, i, n - 1);
    var block, t := LastBlockComes(cfg, s, i);
    var e := BlockArrived(i, block, (n - 1) * BLOCK_SIZE);
    StepKeepsInv(cfg, LastPiece(cfg, s, i, n - 1), e, t);
    HoldsBack(cfg, s, i, t);
    InitInv(cfg);
    LeadsSnoc(cfg, Init(cfg), first, LastPiece(cfg, s, i, n - 1), e, t);
    assert Reachable(cfg, first + [Transition(e, t)], t);
  }

  lemma LastBlockComes(cfg: Config, s: State, i: nat) returns (block: seq<byte>, t: State)
    requires cfg.Ok() && AllBut(cfg, s, i) && BlocksIn(cfg.PieceLen(i)) >= 2
    requires Inv(cfg, LastPiece(cfg, s, i, BlocksIn(cfg.PieceLen(i)) - 1))
    ensures var n := BlocksIn(cfg.PieceLen(i));
      Step(cfg, LastPiece(cfg, s, i, n - 1), BlockArrived(i, block, (n - 1) * BLOCK_SIZE), t)
    ensures exists p :: t == Only(s, i, p) && LastCame(p, BlocksIn(cfg.PieceLen(i)))
  {
    hide CeilDiv, IsPermutation, Ordered, RequestedOk, InTorrent, Splice, Quiet, DoneBut;
    var len := cfg.PieceLen(i);
    var n := BlocksIn(len);
    var u := LastPiece(cfg, s, i, n - 1);
    ChunkEnds(len, BLOCK_SIZE, n - 1);
    block := seq(ChunkLen(len, BLOCK_SIZE, n - 1), _ => 0);
    var offset := (n - 1) * BLOCK_SIZE;
    assert offset / BLOCK_SIZE == n - 1;
    assert Iota(n)[n - 1] == n - 1 && n - 1 in Iota(n);
    LastRemoved(n);
    var p := Receive(u.requested[i], block, offset);
    assert p.open == Iota(n - 1);
    assert Iota(n - 1)[0] == 0;
    t := Only(s, i, p);
    assert u.requested[i := p] == map[i := p];
  }

  lemma LastRemoved(n: nat)
    requires n >= 1 && n - 1 in Iota(n)
    ensures SwapRemove(Iota(n), IndexOf(Iota(n), n - 1)) == Iota(n - 1)
  {
  }

  lemma HoldsBack(cfg: Config, s: State, i: nat, t: State)
    requires cfg.Ok() && cfg.timeout >= 0 && AllBut(cfg, s, i) && Inv(cfg, t)
    requires exists p :: t == Only(s, i, p) && LastCame(p, BlocksIn(cfg.PieceLen(i)))
    ensures HeldBack(cfg, t, i)
  {
    hide CeilDiv, ChunkLen, IsPermutation, Ordered, InTorrent, BlocksIn, RequestedOk;
    var p :| t == Only(s, i, p) && LastCame(p, BlocksIn(cfg.PieceLen(i)));
    var n := BlocksIn(cfg.PieceLen(i));
    OnlyIncomplete(cfg, t, i);
    assert Waiting(cfg, t, i, p);
    assert IsStray(p, n - 1);
    UnrequestedIffAsked(p);
    assert t.requested[i] == p && Unrequested(t.requested[i].requestTime) != 0;
    assert EntersEndgameIfDue(t, t);
    WaitingIsRefused(cfg, t, i, p, t);
  }

  // ----- a piece lost in endgame mode --------------------------------------

  /** Endgame mode is on and its list is sufficient; the last block of piece i arrives, the piece
      fails its check, and from then on no gated run ever completes the download. */
  ghost predicate LostInEndgame(cfg: Config, s: State, i: nat, e: Event, t: State)
    requires cfg.Ok()
  {
    && Inv(cfg, s) && s.endgame && Covered(s) && e.BlockArrived? && e.piece == i
    && Step(cfg, s, e, t) && Mismatch(cfg, s, e)
    && Inv(cfg, t) && !Covered(t)
    && forall steps, u :: Leads(cfg, t, steps, u) && Gated(t, steps) ==> u.left != 0
  }

  /** The list endgame mode begins with. */
  ghost function WholePiece(i: nat, n: nat): (rs: seq<Block>)
    ensures |rs| == n && forall b :: 0 <= b < n ==> rs[b] == Block(i, b * BLOCK_SIZE, BLOCK_SIZE)
  {
    seq(n, (b: nat) => Block(i, b * BLOCK_SIZE, BLOCK_SIZE))
  }

  ghost function InEndgame(cfg: Config, s: State, i: nat): State
    requires cfg.Ok() && i < cfg.PiecesCnt()
  {
    s.(endgame := true, endgameRequests := WholePiece(i, BlocksIn(cfg.PieceLen(i))))
  }

  /** Once every block of the last piece has been asked for, the next question begins endgame
      mode. */
  lemma NextQuestionBeginsEndgame(cfg: Config, s: State, i: nat)
    requires cfg.Ok() && cfg.timeout >= 0 && AllBut(cfg, s, i)
    requires Inv(cfg, LastPiece(cfg, s, i, BlocksIn(cfg.PieceLen(i))))
    ensures var n := BlocksIn(cfg.PieceLen(i));
      && Step(cfg, LastPiece(cfg, s, i, n), BlockAsked(OnlyPiece(cfg.PiecesCnt(), i), StillAt(0), None),
              LastPiece(cfg, InEndgame(cfg, s, i), i, n))
      && Covered(LastPiece(cfg, InEndgame(cfg, s, i), i, n)) && !LastPiece(cfg, s, i, n).endgame
  {
    hide CeilDiv, ChunkLen, IsPermutation, Ordered, InTorrent, BlocksIn, RequestedOk;
    var n := BlocksIn(cfg.PieceLen(i));
    var t, t' := LastPiece(cfg, s, i, n), LastPiece(cfg, InEndgame(cfg, s, i), i, n);
    var p := t.requested[i];
    OnlyIncomplete(cfg, t, i);
    UnrequestedIffAsked(p);
    assert FullyAsked(p);
    assert forall q :: q in t.requested ==> q == i;
    ListsWholePiece(t.requested, i, n);
    assert EntersEndgameIfDue(t, t');
    assert Waiting(cfg, t, i, p);
    WaitingIsRefused(cfg, t, i, p, t');
  }

  lemma ListsWholePiece(requested: map<nat, PieceState>, i: nat, n: nat)
    requires requested.Keys == {i} && requested[i].open == Iota(n)
    ensures ListsOpenBlocks(requested, WholePiece(i, n))
  {
    var rs := WholePiece(i, n);
    forall b | 0 <= b < n ensures b * BLOCK_SIZE / BLOCK_SIZE == b {
    }
    forall r | r in rs ensures OpenRequest(requested, r) {
      var b :| 0 <= b < n && rs[b] == r;
      assert Iota(n)[b] == b;
    }
    forall p, b | p in requested && b in requested[p].open ensures Block(p, b * BLOCK_SIZE, BLOCK_SIZE) in rs {
      assert rs[b] == Block(i, b * BLOCK_SIZE, BLOCK_SIZE);
    }
  }

  /** Blocks arrive one after the other until one is missing; the list stays sufficient. */
  lemma {:induction false} DeliverButOne(cfg: Config, s: State, i: nat, p: PieceState, data: seq<byte>, k: nat)
    returns (steps: seq<Transition>, q: PieceState)
    requires cfg.Ok() && i < cfg.PiecesCnt() && |data| == cfg.PieceLen(i) && s.requested == map[] && s.endgame
    requires Inv(cfg, Only(s, i, p)) && Covered(Only(s, i, p)) && Filling(p, data, k) && k < BlocksIn(|data|)
    ensures Leads(cfg, Only(s, i, p), steps, Only(s, i, q)) && Gated(Only(s, i, p), steps)
    ensures Inv(cfg, Only(s, i, q)) && Covered(Only(s, i, q)) && Filling(q, data, BlocksIn(|data|) - 1)
    decreases BlocksIn(|data|) - k
  {
    hide Inv, Step, Filling, Receive, BlocksIn, BlockData, Config.Ok, Covered, Leads, Gated, CeilDiv, ChunkLen;
    if k == BlocksIn(|data|) - 1 {
      steps, q := [], p;
      NothingDone(cfg, Only(s, i, p));
    } else {
      var a := Part(data, k);
      FillOnce(p, data, k);
      FillIsAStep(cfg, s, i, p, data, k);
      var r := Receive(p, a.block, a.offset);
      var e := BlockArrived(i, a.block, a.offset);
      StillMissing(r, data, k + 1);
      StepKeepsInv(cfg, Only(s, i, p), e, Only(s, i, r));
      StepKeepsCovered(cfg, Only(s, i, p), e, Only(s, i, r));
      var rest;
      rest, q := DeliverButOne(cfg, s, i, r, data, k + 1);
      LeadsCons(cfg, Only(s, i, p), e, Only(s, i, r), rest, Only(s, i, q));
      GatedCons(Only(s, i, p), e, Only(s, i, r), rest);
      steps := [Transition(e, Only(s, i, r))] + rest;
    }
  }

  lemma GatedCons(s: State, e: Event, s': State, steps: seq<Transition>)
    requires Gated(s', steps) && (e.BlockAsked? ==> !s.endgame)
    ensures Gated(s, [Transition(e, s')] + steps)
  {
    assert ([Transition(e, s')] + steps)[1..] == steps;
  }

  lemma {:induction false} GatedJoin(cfg: Config, s: State, one: seq<Transition>, t: State, two: seq<Transition>)
    requires cfg.Ok() && Inv(cfg, s) && Leads(cfg, s, one, t) && Gated(s, one) && Gated(t, two)
    ensures Gated(s, one + two)
    decreases |one|
  {
    hide Inv, Step;
    if one == [] {
      assert one + two == two;
    } else {
      StepKeepsInv(cfg, s, one[0].event, one[0].after);
      GatedJoin(cfg, one[0].after, one[1..], t, two);
      assert (one + two)[1..] == one[1..] + two;
    }
  }

  /** In every torrent and for every piece of it, data of the piece that fails its check loses it
      in endgame mode, if it is the last one: such a state is reachable by a gated run. */
  lemma MismatchInEndgameIsReachable(cfg: Config, content: seq<seq<byte>>, i: nat)
    requires cfg.Ok() && cfg.timeout >= 0 && i < cfg.PiecesCnt() && GoodBut(cfg, content, i)
    requires !cfg.Verified(content[i], i)
    ensures exists steps, s, e, t ::
      Reachable(cfg, steps, s) && Gated(Init(cfg), steps) && LostInEndgame(cfg, s, i, e, t)
  {
    hide Inv, Step, Leads, Gated, LostInEndgame, Quiet, DoneBut, CeilDiv, ChunkLen, Covered, Config.Verified;
    hide BlocksIn, Filling, FreshPiece;
    PieceLenBounds(cfg, i);
    InitInv(cfg);
    var n, data := BlocksIn(cfg.PieceLen(i)), content[i];
    var first, s := ReachLastPiece(cfg, content, i, n);
    var t, s' := LastPiece(cfg, s, i, n), InEndgame(cfg, s, i);
    var ask := BlockAsked(OnlyPiece(cfg.PiecesCnt(), i), StillAt(0), None);
    NextQuestionBeginsEndgame(cfg, s, i);
    var p := FreshPiece(cfg.PieceLen(i)).(requestTime := AskedFirst(n, n));
    StepKeepsInv(cfg, t, ask, Only(s', i, p));
    GatedBefore(cfg, Init(cfg), first, t);
    LeadsSnoc(cfg, Init(cfg), first, t, ask, Only(s', i, p));
    GatedSnoc(cfg, Init(cfg), first, t, ask, Only(s', i, p));
    var two := first + [Transition(ask, Only(s', i, p))];
    NothingFilled(data, p);
    NotInProgress(cfg, s, i);
    var rest, q := DeliverButOne(cfg, s', i, p, data, 0);
    LeadsJoin(cfg, Init(cfg), two, Only(s', i, p), rest, Only(s', i, q));
    GatedJoin(cfg, Init(cfg), two, Only(s', i, p), rest);
    var e, u := LastBlockIsBad(cfg, s', i, q, data);
    assert Reachable(cfg, two + rest, Only(s', i, q));
  }

  lemma NotInProgress(cfg: Config, s: State, i: nat)
    requires cfg.Ok() && AllBut(cfg, s, i)
    ensures s.requested == map[]
  {
  }

  lemma NothingFilled(data: seq<byte>, p: PieceState)
    requires 1 <= |data| <= MAX_PIECE_SIZE && |p.requestTime| == BlocksIn(|data|)
    requires p == FreshPiece(|data|).(requestTime := p.requestTime)
    ensures Filling(p, data, 0)
  {
    FreshPieceOk(|data|);
    forall b: nat | b < BlocksIn(|data|) ensures b in p.open {
      assert p.open[b] == b;
    }
  }

  lemma LastBlockIsBad(cfg: Config, s: State, i: nat, q: PieceState, data: seq<byte>) returns (e: Event, t: State)
    requires cfg.Ok() && i < cfg.PiecesCnt() && |data| == cfg.PieceLen(i) && s.requested == map[] && s.endgame
    requires Inv(cfg, Only(s, i, q)) && Covered(Only(s, i, q)) && !cfg.Verified(data, i)
    requires BlocksIn(|data|) > 0 && Filling(q, data, BlocksIn(|data|) - 1)
    ensures LostInEndgame(cfg, Only(s, i, q), i, e, t)
  {
    hide Inv, Step, Filling, BlocksIn, BlockData, Config.Ok, Covered, Leads, Gated, CeilDiv, ChunkLen, Receive;
    var k, u := BlocksIn(|data|) - 1, Only(s, i, q);
    var a := Part(data, k);
    FillOnce(q, data, k);
    FillIsAStep(cfg, s, i, q, data, k);
    FilledIsData(Receive(q, a.block, a.offset), data);
    e, t := BlockArrived(i, a.block, a.offset), Delivered(cfg, s, i, data);
    assert Mismatch(cfg, u, e);
    StepKeepsInv(cfg, u, e, t);
    CoveredIffNoMismatch(cfg, u, e, t);
    EndgameIsOneWay(cfg, u, e, t);
    MismatchDrops(cfg, u, e, t);
    forall steps, v | Leads(cfg, t, steps, v) && Gated(t, steps) ensures v.left != 0 {
      DroppedStaysDropped(cfg, t, steps, v, i);
    }
  }

  /** Such torrents exist: two pieces of two blocks, of which zeros pass. */
  lemma SomeCanBeLost(i: nat) returns (cfg: Config, content: seq<seq<byte>>)
    requires i < 2
    ensures cfg.Ok() && cfg.timeout >= 0 && cfg.PiecesCnt() == 2 && BlocksIn(cfg.PieceLen(i)) == 2
    ensures GoodBut(cfg, content, i) && !cfg.Verified(content[i], i)
  {
    cfg := Config(2 * BLOCK_SIZE, 4 * BLOCK_SIZE, seq(2 * SHA1_SIZE, _ => 0), 5000, ZerosPass);
    var good, bad := seq(2 * BLOCK_SIZE, _ => 0), seq(2 * BLOCK_SIZE, _ => 1);
    content := if i == 0 then [bad, good] else [good, bad];
    assert cfg.RefHash(0) == seq(SHA1_SIZE, _ => 0) == cfg.RefHash(1);
  }

  function ZerosPass(data: seq<byte>): seq<byte> {
    if data != [] && data[0] == 0 then seq(SHA1_SIZE, _ => 0) else []
  }
}
