/** Runs of the engine built step by step: any piece can be asked for and delivered in
    order, block after block, whatever its size. */
module Runs {
  import opened Prelude
  import opened Layout
  import opened Pieces
  import opened Engine
  import opened Download
  import opened Selection

  // ----- composing runs ----------------------------------------------------

  lemma LeadsCons(cfg: Config, s: State, e: Event, s': State, steps: seq<Transition>, t: State)
    requires cfg.Ok() && Inv(cfg, s) && Step(cfg, s, e, s') && Inv(cfg, s') && Leads(cfg, s', steps, t)
    ensures Leads(cfg, s, [Transition(e, s')] + steps, t)
  {
    hide Inv, Step;
    var more := [Transition(e, s')] + steps;
    assert more[0] == Transition(e, s') && more[1..] == steps;
  }

  lemma {:induction false} LeadsJoin(cfg: Config, s: State, one: seq<Transition>, t: State,
                                     two: seq<Transition>, u: State)
    requires cfg.Ok() && Inv(cfg, s) && Leads(cfg, s, one, t) && Inv(cfg, t) && Leads(cfg, t, two, u)
    ensures Leads(cfg, s, one + two, u)
    decreases |one|
  {
    hide Inv, Step;
    if one == [] {
      assert one + two == two;
    } else {
      var e, s' := one[0].event, one[0].after;
      StepKeepsInv(cfg, s, e, s');
      LeadsJoin(cfg, s', one[1..], t, two, u);
      LeadsCons(cfg, s, e, s', one[1..] + two, u);
      assert [one[0]] + (one[1..] + two) == one + two;
    }
  }

  // ----- asking for a piece ------------------------------------------------

  /** Nothing is in progress, endgame mode has not begun, and no peer has been counted in: any
      order is by rarity. */
  ghost predicate Quiet(cfg: Config, s: State)
    requires cfg.Ok()
  {
    && Inv(cfg, s) && s.requested == map[] && !s.endgame
    && forall p :: 0 <= p < |s.avail| ==> s.avail[p] == 0
  }

  lemma InitIsQuiet(cfg: Config)
    requires cfg.Ok()
    ensures Quiet(cfg, Init(cfg))
  {
    InitInv(cfg);
  }

  ghost function OnlyPiece(n: nat, i: nat): (bits: seq<bool>)
    ensures |bits| == n && forall k :: 0 <= k < n ==> bits[k] == (k == i)
  {
    seq(n, k => k == i)
  }

  lemma PieceLenBounds(cfg: Config, i: nat)
    requires cfg.Ok() && i < cfg.PiecesCnt()
    ensures 1 <= cfg.PieceLen(i) <= MAX_PIECE_SIZE && i * cfg.pieceSize + cfg.PieceLen(i) <= cfg.torrentSize
    ensures 0 < BlocksIn(cfg.PieceLen(i))
  {
    ChunkFits(cfg.torrentSize, cfg.pieceSize, i);
    BlockOfOffset(cfg.PieceLen(i), 0);
  }

  /** The piece after its first block was asked for at time 0. */
  ghost function Started(size: nat): PieceState
    requires 0 < BlocksIn(size)
  {
    MarkRequested(FreshPiece(size), 0, 0)
  }

  /** The state in which piece i, and no other, is in progress as p. */
  ghost function Only(s: State, i: nat, p: PieceState): State {
    s.(isSorted := true, requested := map[i := p])
  }

  ghost function Ask(cfg: Config, i: nat): Event
    requires cfg.Ok() && i < cfg.PiecesCnt()
  {
    PieceLenBounds(cfg, i);
    BlockAsked(OnlyPiece(cfg.PiecesCnt(), i), StillAt(0), Some(Block(i, 0, ChunkLen(cfg.PieceLen(i), BLOCK_SIZE, 0))))
  }

  /** A peer that has only piece i is asked for the piece's first block. */
  lemma AskStarts(cfg: Config, s: State, i: nat)
    requires cfg.Ok() && Quiet(cfg, s) && i < cfg.PiecesCnt() && i < |s.completed| && !s.completed[i]
    ensures 0 < BlocksIn(cfg.PieceLen(i))
    ensures Step(cfg, s, Ask(cfg, i), Only(s, i, Started(cfg.PieceLen(i))))
  {
    PieceLenBounds(cfg, i);
    hide RequestedOk, InTorrent, FreshPiece, NextBlock, IsPermutation, CeilDiv, ChunkLen, BlocksIn;
    var n, len := cfg.PiecesCnt(), cfg.PieceLen(i);
    var t := Only(s, i, Started(len));
    AllTrue(s.completed);
    CeilDivBounds(MAX_MEMPOOL_SIZE, cfg.pieceSize);
    FreshPieceYields(len, StillAt(0).read(i), cfg.timeout);
    assert s.requested[i := Started(len)] == t.requested;
    var s1 := s.(sorted := t.sorted, isSorted := true);
    assert TakesBlock(cfg, s1, i, StillAt(0), t, Block(i, 0, ChunkLen(len, BLOCK_SIZE, 0)));
    PermutationIndices(s.sorted, n);
    var k := IndexOf(s.sorted, i);
    assert s1.sorted[k] == i;
  }

  // ----- asking for more of it ---------------------------------------------

  /** No block of piece i has come, and its blocks were last asked for at these times. */
  ghost function AskedAt(cfg: Config, s: State, i: nat, ts: seq<int>): State
    requires cfg.Ok() && i < cfg.PiecesCnt()
  {
    Only(s, i, FreshPiece(cfg.PieceLen(i)).(requestTime := ts))
  }

  ghost function NamedBlock(cfg: Config, i: nat, b: nat): Block
    requires cfg.Ok() && i < cfg.PiecesCnt() && b < BlocksIn(cfg.PieceLen(i))
  {
    Block(i, b * BLOCK_SIZE, ChunkLen(cfg.PieceLen(i), BLOCK_SIZE, b))
  }

  ghost function AskFor(cfg: Config, i: nat, b: nat, now: int): Event
    requires cfg.Ok() && i < cfg.PiecesCnt() && b < BlocksIn(cfg.PieceLen(i))
  {
    BlockAsked(OnlyPiece(cfg.PiecesCnt(), i), StillAt(now), Some(NamedBlock(cfg, i, b)))
  }

  /** The next block of a piece in progress is granted to a peer that has just this piece. */
  lemma GrantIsAStep(cfg: Config, s: State, i: nat, ts: seq<int>, now: int, b: nat)
    requires cfg.Ok() && Quiet(cfg, s) && i < cfg.PiecesCnt() && i < |s.completed| && !s.completed[i]
    requires Inv(cfg, AskedAt(cfg, s, i, ts)) && |ts| == BlocksIn(cfg.PieceLen(i)) && b < |ts| && now > TIME_MIN
    requires NextBlock(Iota(|ts|), ts, StillAt(now).read(i), cfg.timeout) == Some(b)
    ensures Step(cfg, AskedAt(cfg, s, i, ts), AskFor(cfg, i, b, now), AskedAt(cfg, s, i, ts[b := now]))
  {
    hide IsPermutation, RequestedOk, InTorrent, NextBlock, CeilDiv, ChunkLen, BlocksIn;
    var n := cfg.PiecesCnt();
    var t, t' := AskedAt(cfg, s, i, ts), AskedAt(cfg, s, i, ts[b := now]);
    AllTrue(t.completed);
    assert t.requested[i := MarkRequested(t.requested[i], b, now)] == t'.requested;
    assert t.(sorted := t'.sorted, isSorted := true) == t;
    assert TakesBlock(cfg, t, i, StillAt(now), t', NamedBlock(cfg, i, b));
    ListNames(cfg, t, i);
    var k := IndexOf(t.sorted, i);
    assert t.sorted[k] == NamedBlock(cfg, i, b).piece;
    assert CanYield(cfg, t, OnlyPiece(n, i), StillAt(now), i);
    OthersCannot(cfg, t, i, StillAt(now), k);
    assert Answers(cfg, t, OnlyPiece(n, i), StillAt(now), t', Some(NamedBlock(cfg, i, b)));
  }

  lemma ListNames(cfg: Config, s: State, i: nat)
    requires cfg.Ok() && Inv(cfg, s) && i < cfg.PiecesCnt()
    ensures IsPermutation(s.sorted, cfg.PiecesCnt()) && InRange(s.sorted, |s.avail|) && i in s.sorted
    ensures s.left != 0 || forall p :: 0 <= p < |s.completed| ==> s.completed[p]
  {
    PermutationIndices(s.sorted, cfg.PiecesCnt());
    AllTrue(s.completed);
  }

  lemma OthersCannot(cfg: Config, s: State, i: nat, now: Clock, k: nat)
    requires cfg.Ok() && k < |s.sorted| && forall j :: 0 <= j < k ==> s.sorted[j] != i
    ensures forall j :: 0 <= j < k ==> !CanYield(cfg, s, OnlyPiece(cfg.PiecesCnt(), i), now, s.sorted[j])
  {
    hide NextBlock;
  }

  // ----- delivering it -----------------------------------------------------

  /** The first k blocks of the data are in, the others missing. */
  ghost predicate Filling(p: PieceState, data: seq<byte>, k: nat) {
    && PieceOk(p, |data|) && k <= BlocksIn(|data|)
    && (forall b :: b in p.open <==> k <= b < BlocksIn(|data|))
    && forall b :: 0 <= b < k ==> BlockData(p.data, b) == BlockData(data, b)
  }

  ghost function Part(data: seq<byte>, k: nat): Arrival
    requires k < BlocksIn(|data|)
  {
    Arrival(BlockData(data, k), k * BLOCK_SIZE)
  }

  lemma StartedIsFilling(data: seq<byte>)
    requires 1 <= |data| <= MAX_PIECE_SIZE
    ensures 0 < BlocksIn(|data|) && Filling(Started(|data|), data, 0)
  {
    FreshPieceOk(|data|);
    var open := FreshPiece(|data|).open;
    forall b: nat | b < BlocksIn(|data|) ensures b in open {
      assert open[b] == b;
    }
  }

  lemma PartIsExact(data: seq<byte>, k: nat)
    requires k < BlocksIn(|data|)
    ensures ExactBlock(|data|, Part(data, k)) && InPiece(|data|, k * BLOCK_SIZE, |Part(data, k).block|)
    ensures k * BLOCK_SIZE / BLOCK_SIZE == k
  {
    ExactInPiece(|data|, Part(data, k));
  }

  /** The next block fills the piece one block further; the last one completes the data. */
  lemma FillOnce(p: PieceState, data: seq<byte>, k: nat)
    requires Filling(p, data, k) && k < BlocksIn(|data|)
    ensures var a := Part(data, k);
      && Arrives(p, a.offset, |a.block|) && a.offset + |a.block| <= |p.data|
      && Filling(Receive(p, a.block, a.offset), data, k + 1)
  {
    var a := Part(data, k);
    PartIsExact(data, k);
    ReceiveOk(p, |data|, a.block, a.offset);
    assert Arrives(p, a.offset, |a.block|);
    hide Receive, PieceOk, BlockData, BlocksIn, ChunkLen, ExactBlock;
    var q := Receive(p, a.block, a.offset);
    forall b: nat | b < k + 1 ensures |q.data| == |data| && BlockData(q.data, b) == BlockData(data, b) {
      ReceiveExactBlock(p, |data|, a, b);
    }
  }

  lemma FilledIsData(p: PieceState, data: seq<byte>)
    requires Filling(p, data, BlocksIn(|data|))
    ensures p.open == [] && p.data == data
  {
    if p.open != [] {
      SomeBlockOpen(p, |data|);
    }
    BlocksDetermineData(p.data, data);
  }

  /** The state once piece i was delivered with this data and checked. */
  ghost function Delivered(cfg: Config, s: State, i: nat, data: seq<byte>): State
    requires cfg.Ok() && i < cfg.PiecesCnt() && |data| == cfg.PieceLen(i)
    requires |s.completed| == cfg.PiecesCnt() && |s.disk| == cfg.torrentSize
  {
    FinishPiece(cfg, s.(isSorted := true), i, data)
  }

  lemma FillIsAStep(cfg: Config, s: State, i: nat, p: PieceState, data: seq<byte>, k: nat)
    requires cfg.Ok() && i < cfg.PiecesCnt() && |data| == cfg.PieceLen(i) && s.requested == map[]
    requires Inv(cfg, Only(s, i, p)) && Filling(p, data, k) && k < BlocksIn(|data|)
    ensures |s.completed| == cfg.PiecesCnt() && |s.disk| == cfg.torrentSize
    ensures var a := Part(data, k);
      && a.offset + |a.block| <= |p.data|
      && Step(cfg, Only(s, i, p), BlockArrived(i, a.block, a.offset),
              if k + 1 < BlocksIn(|data|) then Only(s, i, Receive(p, a.block, a.offset))
              else Delivered(cfg, s, i, data))
  {
    hide Filling, PieceOk, Arrives, BlocksIn, BlockData, ChunkLen, Config.Verified, Receive, IsPermutation, Ordered;
    var a, t := Part(data, k), Only(s, i, p);
    PartIsExact(data, k);
    FillOnce(p, data, k);
    var q := Receive(p, a.block, a.offset);
    if k + 1 < BlocksIn(|data|) {
      StillMissing(q, data, k + 1);
      assert t.requested[i := q] == map[i := q];
    } else {
      FilledIsData(q, data);
      assert map[i := p] - {i} == map[];
    }
  }

  lemma StillMissing(p: PieceState, data: seq<byte>, k: nat)
    requires Filling(p, data, k) && k < BlocksIn(|data|)
    ensures p.open != []
  {
    assert k in p.open;
  }

  lemma {:induction false} DeliverFrom(cfg: Config, s: State, i: nat, p: PieceState, data: seq<byte>, k: nat)
    requires cfg.Ok() && i < cfg.PiecesCnt() && |data| == cfg.PieceLen(i) && s.requested == map[]
    requires Inv(cfg, Only(s, i, p)) && Filling(p, data, k) && k < BlocksIn(|data|)
    ensures |s.completed| == cfg.PiecesCnt() && |s.disk| == cfg.torrentSize
    ensures exists steps :: Leads(cfg, Only(s, i, p), steps, Delivered(cfg, s, i, data))
    decreases BlocksIn(|data|) - k
  {
    hide Inv, Step, Filling, Receive, Only, Delivered, BlocksIn, BlockData, Config.Ok;
    FillIsAStep(cfg, s, i, p, data, k);
    var a, t, u := Part(data, k), Only(s, i, p), Delivered(cfg, s, i, data);
    var e := BlockArrived(i, a.block, a.offset);
    if k + 1 < BlocksIn(|data|) {
      var q := Receive(p, a.block, a.offset);
      StepKeepsInv(cfg, t, e, Only(s, i, q));
      FillOnce(p, data, k);
      DeliverFrom(cfg, s, i, q, data, k + 1);
      var rest :| Leads(cfg, Only(s, i, q), rest, u);
      LeadsCons(cfg, t, e, Only(s, i, q), rest, u);
    } else {
      StepKeepsInv(cfg, t, e, u);
      LeadsCons(cfg, t, e, u, [], u);
    }
  }

  /** From any quiet state an incomplete piece can be fetched whole, whatever its number of
      blocks, and the state is quiet again. */
  lemma FetchPiece(cfg: Config, s: State, i: nat, data: seq<byte>)
    requires cfg.Ok() && Quiet(cfg, s) && i < cfg.PiecesCnt() && |data| == cfg.PieceLen(i)
    requires i < |s.completed| && !s.completed[i]
    ensures |s.completed| == cfg.PiecesCnt() && |s.disk| == cfg.torrentSize
    ensures Quiet(cfg, Delivered(cfg, s, i, data))
    ensures exists steps :: Leads(cfg, s, steps, Delivered(cfg, s, i, data))
  {
    PieceLenBounds(cfg, i);
    StartedIsFilling(data);
    AskStarts(cfg, s, i);
    var p, u := Started(|data|), Delivered(cfg, s, i, data);
    assert u.avail == s.avail && u.endgame == s.endgame;
    assert u.requested == map[];
    hide Inv, Step, Filling, Started, Only, Delivered, BlocksIn, Config.Ok, Leads, Ask;
    StepKeepsInv(cfg, s, Ask(cfg, i), Only(s, i, p));
    DeliverFrom(cfg, s, i, p, data, 0);
    var rest :| Leads(cfg, Only(s, i, p), rest, u);
    LeadsCons(cfg, s, Ask(cfg, i), Only(s, i, p), rest, u);
    RunKeepsInv(cfg, Only(s, i, p), rest, u);
  }

  /** The first k pieces but one, and no others, are completed. */
  ghost predicate DoneBut(s: State, k: nat, but: nat) {
    forall i :: 0 <= i < |s.completed| ==> s.completed[i] == (i < k && i != but)
  }

  /** Data for every piece, which pass their checks except perhaps for one. */
  ghost predicate GoodBut(cfg: Config, content: seq<seq<byte>>, but: nat)
    requires cfg.Ok()
  {
    && |content| == cfg.PiecesCnt()
    && forall i :: 0 <= i < |content| ==> |content[i]| == cfg.PieceLen(i) && (i == but || cfg.Verified(content[i], i))
  }

  lemma {:induction false} FetchAllBut(cfg: Config, content: seq<seq<byte>>, k: nat, but: nat)
    requires cfg.Ok() && GoodBut(cfg, content, but) && k <= |content|
    ensures exists steps, t :: Reachable(cfg, steps, t) && Quiet(cfg, t) && DoneBut(t, k, but)
  {
    hide Quiet, Leads, CeilDiv, ChunkLen, Config.Verified, Config.Ok;
    if k == 0 {
      InitIsQuiet(cfg);
      assert Reachable(cfg, [], Init(cfg)) && DoneBut(Init(cfg), 0, but) by {
        NoSteps(cfg);
      }
    } else {
      FetchAllBut(cfg, content, k - 1, but);
      var steps, s :| Reachable(cfg, steps, s) && Quiet(cfg, s) && DoneBut(s, k - 1, but);
      if k - 1 == but {
        assert DoneBut(s, k, but);
      } else {
        FetchOneMore(cfg, steps, s, k - 1, but, content[k - 1]);
      }
    }
  }

  lemma NoSteps(cfg: Config)
    requires cfg.Ok()
    ensures Reachable(cfg, [], Init(cfg))
  {
  }

  lemma FetchOneMore(cfg: Config, steps: seq<Transition>, s: State, k: nat, but: nat, data: seq<byte>)
    requires cfg.Ok() && Reachable(cfg, steps, s) && Quiet(cfg, s) && DoneBut(s, k, but)
    requires but != k < cfg.PiecesCnt() && |data| == cfg.PieceLen(k) && cfg.Verified(data, k)
    ensures exists more, t :: Reachable(cfg, more, t) && Quiet(cfg, t) && DoneBut(t, k + 1, but)
  {
    hide Inv, Leads, Init, Quiet, Delivered, DoneBut, CeilDiv, ChunkLen, Config.Verified, Config.Ok;
    InitInv(cfg);
    QuietInv(cfg, s);
    DeliveredOneMore(cfg, s, k, but, data);
    FetchPiece(cfg, s, k, data);
    var t := Delivered(cfg, s, k, data);
    var more :| Leads(cfg, s, more, t);
    LeadsJoin(cfg, Init(cfg), steps, s, more, t);
    assert Reachable(cfg, steps + more, t);
  }

  lemma QuietInv(cfg: Config, s: State)
    requires cfg.Ok() && Quiet(cfg, s)
    ensures Inv(cfg, s)
  {
  }

  lemma DeliveredOneMore(cfg: Config, s: State, k: nat, but: nat, data: seq<byte>)
    requires cfg.Ok() && Quiet(cfg, s) && DoneBut(s, k, but)
    requires but != k < cfg.PiecesCnt() && |data| == cfg.PieceLen(k) && cfg.Verified(data, k)
    ensures |s.completed| == cfg.PiecesCnt() && |s.disk| == cfg.torrentSize && !s.completed[k]
    ensures DoneBut(Delivered(cfg, s, k, data), k + 1, but)
  {
  }

  /** A torrent whose pieces pass their checks can be downloaded to the end, whatever its
      sizes: completion is reachable. */
  lemma CompletionIsReachable(cfg: Config, content: seq<seq<byte>>)
    requires cfg.Ok() && GoodBut(cfg, content, |content|)
    ensures exists steps, t :: Reachable(cfg, steps, t) && t.left == 0
  {
    FetchAllBut(cfg, content, |content|, |content|);
    var steps, t :| Reachable(cfg, steps, t) && Quiet(cfg, t) && DoneBut(t, |content|, |content|);
    AllTrue(t.completed);
  }
}
