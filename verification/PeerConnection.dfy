/** One connection: its request window, its send buffer and its share of the piece
    manager.  The awaits of the source are the boundaries between the methods here. */
module Peers {
  import opened Prelude
  import opened Layout
  import opened Pools
  import opened Pieces
  import opened Engine
  import opened Window
  import opened Turns
  import opened Messages
  import opened Manager
  import D = Download

  class PeerConnection {
    const pm: PieceManager
    var bitfield: seq<bool>
    var bitfieldReceived: bool
    var peerChoking: bool
    var sendBuffer: seq<byte>
    var blocksInfo: seq<Entry>
    var count: nat
    var endgameRemaining: seq<Block>

    /** The in-flight window never outgrows its vector, and holds blocks of this torrent only. */
    ghost predicate Valid()
      reads this`bitfield, this`blocksInfo, this`count, this`endgameRemaining
      ensures Valid() ==> count <= |blocksInfo|
    {
      && pm.cfg.Ok() && pm.piecesCnt == pm.cfg.PiecesCnt()
      && |bitfield| == pm.piecesCnt
      && |blocksInfo| == MAX_BLOCKS_IN_FLIGHT && count <= MAX_BLOCKS_IN_FLIGHT
      && (forall e :: e in blocksInfo[..count] ==> InTorrent(pm.cfg, e.block))
      && (forall b :: b in endgameRemaining ==> InTorrent(pm.cfg, b))
    }

    ghost function W(): Window
      requires count <= |blocksInfo|
      reads this
    {
      Window(endgameRemaining, blocksInfo[..count])
    }

    /** A connection that starts running for the first time. */
    constructor (pm: PieceManager)
      requires pm.Valid()
      ensures Valid() && this.pm == pm && W() == Window([], []) && !bitfieldReceived && peerChoking
      ensures bitfield == seq(pm.piecesCnt, _ => false)
    {
      hide PieceManager.Valid, Config.Ok, CeilDiv, InTorrent;
      this.pm := pm;
      bitfield := seq(pm.piecesCnt, _ => false);
      bitfieldReceived := false;
      peerChoking := true;
      sendBuffer := [];
      blocksInfo := seq(MAX_BLOCKS_IN_FLIGHT, _ => Entry(Block(0, 0, 0), 0));
      count := 0;
      endgameRemaining := [];
      pm.ConfigOk();
    }

    /** Swap with the last entry in flight, then forget it. */
    method RemovePending(i: nat)
      requires Valid() && i < count
      modifies this`blocksInfo, this`count
      ensures Valid() && blocksInfo[..count] == SwapRemove(old(blocksInfo[..count]), i)
    {
      hide InTorrent, Config.Ok, CeilDiv;
      ghost var before := blocksInfo[..count];
      var last := count - 1;
      blocksInfo := blocksInfo[i := blocksInfo[last]][last := blocksInfo[i]];
      count := last;
      assert blocksInfo[..count] == SwapRemove(before, i);
      SwapRemoveSubset(before, i);
    }

    /** Keeps the requests the comparison spares; the clock is read anew for each, and all
        readings are between the two times. */
    method RefreshPendingRequests(from: int, to: int)
      requires Valid() && from <= to
      modifies this`blocksInfo, this`count
      ensures Valid() && SiftedBetween(blocksInfo[..count], old(blocksInfo[..count]), KeptUntil(to), ExpiredFrom(from))
    {
      hide Expires, KeptUntil, ExpiredFrom, InTorrent, Config.Ok, CeilDiv;
      ghost var before := blocksInfo[..count];
      ghost var gone: multiset<Entry> := multiset{};
      var i := 0;
      while i < count
        invariant Valid() && i <= count
        invariant multiset(before) == multiset(blocksInfo[..count]) + gone
        invariant forall k :: 0 <= k < i ==> KeptUntil(to)(blocksInfo[..count][k])
        invariant forall e :: e in gone ==> ExpiredFrom(from)(e)
        decreases count - i
      {
        var now: int :| from <= now <= to;
        ExpiresBetween(blocksInfo[i], from, now, to);
        if Expires(blocksInfo[i], now) {
          SwapRemoveMultiset(blocksInfo[..count], i);
          SwapRemoveSubset(blocksInfo[..count], i);
          gone := gone + multiset{blocksInfo[i]};
          RemovePending(i);
        } else {
          i := i + 1;
        }
      }
      SiftedBetweenBySplit(blocksInfo[..count], before, gone, KeptUntil(to), ExpiredFrom(from));
    }

    // ----- endgame ---------------------------------------------------------

    /** The peer's share of the endgame blocks, in some order. */
    method EnterEndgame() returns (hasBlocks: bool)
      requires Valid() && pm.Valid()
      modifies this`endgameRemaining
      ensures Valid() && hasBlocks == (endgameRemaining != [])
      ensures Sifted(endgameRemaining, pm.Model().endgameRequests, OwnedBy(bitfield))
    {
      hide PieceManager.Valid, PieceManager.Model, InTorrent, CeilDiv, Config.Ok, OwnedBy;
      RequestsInTorrent();
      var served := pm.EndgameRemainingBlocks(bitfield);
      SiftedSubset(served, pm.endgameRequests, OwnedBy(bitfield));
      var shuffled := Shuffle(served);
      assert Sifted(shuffled, pm.endgameRequests, OwnedBy(bitfield));
      endgameRemaining := shuffled;
      hasBlocks := endgameRemaining != [];
    }

    lemma RequestsInTorrent()
      requires Valid() && pm.Valid()
      ensures pm.Model().endgameRequests == pm.endgameRequests && (!pm.endgame ==> pm.endgameRequests == [])
      ensures forall b :: b in pm.endgameRequests ==> InTorrent(pm.cfg, b) && b.piece < |bitfield|
    {
    }

    /** The order is random in the source; only that it is a permutation is promised. */
    static method Shuffle(s: seq<Block>) returns (r: seq<Block>)
      ensures multiset(r) == multiset(s) && forall b :: b in r <==> b in s
    {
      r := s;
    }

    /** Has the client received the block meanwhile, from whichever peer? */
    method CheckReceived(b: Block, ghost s: State) returns (r: bool)
      requires pm.cfg.Ok() && InTorrent(pm.cfg, b) && pm.Valid() && s == pm.Model()
      ensures r == Got(pm.cfg, s)(b)
    {
      hide PieceManager.Valid, PieceManager.Model, IsReceived, CeilDiv, ChunkLen;
      r := pm.IsBlockReceived(b.piece, b.offset);
    }

    /** Drops the remaining blocks the client has received meanwhile. */
    method DropReceived(ghost s: State)
      requires Valid() && pm.Valid() && s == pm.Model()
      modifies this`endgameRemaining
      ensures Valid() && Sifted(endgameRemaining, old(endgameRemaining), (b: Block) => !Got(pm.cfg, s)(b))
    {
      hide PieceManager.Valid, PieceManager.Model, Got, InTorrent, Config.Ok, CeilDiv, SwapRemove, Sifted;
      ghost var before := endgameRemaining;
      ghost var gone: multiset<Block> := multiset{};
      var i := 0;
      while i < |endgameRemaining|
        invariant Valid() && i <= |endgameRemaining| && pm.Valid() && s == pm.Model()
        invariant multiset(before) == multiset(endgameRemaining) + gone
        invariant forall k :: 0 <= k < i ==> !Got(pm.cfg, s)(endgameRemaining[k])
        invariant forall b :: b in gone ==> Got(pm.cfg, s)(b)
        decreases |endgameRemaining| - i
      {
        var received := CheckReceived(endgameRemaining[i], s);
        if received {
          SwapRemoveMultiset(endgameRemaining, i);
          SwapRemoveSubset(endgameRemaining, i);
          gone := gone + multiset{endgameRemaining[i]};
          endgameRemaining := SwapRemove(endgameRemaining, i);
        } else {
          i := i + 1;
        }
      }
      SiftedBySplit(endgameRemaining, before, gone, (b: Block) => !Got(pm.cfg, s)(b));
    }

    /** How far the second loop of the refresh has come: entries before i stay pending. */
    ghost predicate Resolving(w: Window, received: Block -> bool, stays: Entry -> bool, goes: Entry -> bool,
                              kept: seq<Block>, i: nat, moved: seq<Entry>, dropped: seq<Entry>)
      requires count <= |blocksInfo|
      reads this`blocksInfo, this`count, this`endgameRemaining
    {
      && i <= count
      && Split(w.pending, blocksInfo[..count], moved, dropped)
      && endgameRemaining == kept + Blocks(moved)
      && (forall k :: 0 <= k < i ==> !received(blocksInfo[..count][k].block) && stays(blocksInfo[..count][k]))
      && (forall e :: e in moved ==> !received(e.block) && goes(e))
      && (forall e :: e in dropped ==> received(e.block))
    }

    /** The send buffer holds one message of the given kind for each of the blocks. */
    ghost predicate Sent(id: byte, blocks: seq<Block>)
      reads this`sendBuffer
    {
      (forall b :: b in blocks ==> FitsWords(b)) && sendBuffer == Stream(id, blocks)
    }

    method AppendMessage(id: byte, b: Block, ghost blocks: seq<Block>)
      requires Valid() && InTorrent(pm.cfg, b) && Sent(id, blocks) && (id == REQUEST || id == CANCEL)
      modifies this`sendBuffer
      ensures Valid() && Sent(id, blocks + [b])
    {
      InTorrentFits(pm.cfg, b);
      sendBuffer := AppendBlockMessage(sendBuffer, blocks, id, b);
    }

    /** A received block leaves the window and its request is cancelled. */
    method CancelPending(i: nat, ghost w: Window, ghost received: Block -> bool, ghost stays: Entry -> bool,
                         ghost goes: Entry -> bool, ghost kept: seq<Block>,
                         ghost moved: seq<Entry>, ghost dropped: seq<Entry>)
      requires Valid() && i < count && received(blocksInfo[..count][i].block)
      requires Resolving(w, received, stays, goes, kept, i, moved, dropped) && Sent(CANCEL, Blocks(dropped))
      modifies this`blocksInfo, this`count, this`sendBuffer
      ensures Valid() && count == old(count) - 1
      ensures Resolving(w, received, stays, goes, kept, i, moved, dropped + [old(blocksInfo[..count][i])])
      ensures Sent(CANCEL, Blocks(dropped + [old(blocksInfo[..count][i])]))
    {
      hide InTorrent, Config.Ok, CeilDiv, Split, SwapRemove, Blocks, Stream, Sent;
      ghost var window := blocksInfo[..count];
      var e := blocksInfo[i];
      assert e == window[i] && e in window;
      SwapRemoveSubset(window, i);
      SplitStep(w.pending, window, moved, dropped, i);
      BlocksSnoc(dropped, e);
      RemovePending(i);
      AppendMessage(CANCEL, e.block, Blocks(dropped));
    }

    /** An expired block that nobody delivered goes back to the remaining ones. */
    method RequeuePending(i: nat, ghost w: Window, ghost received: Block -> bool, ghost stays: Entry -> bool,
                          ghost goes: Entry -> bool, ghost kept: seq<Block>,
                          ghost moved: seq<Entry>, ghost dropped: seq<Entry>)
      requires Valid() && i < count
      requires !received(blocksInfo[..count][i].block) && goes(blocksInfo[..count][i])
      requires Resolving(w, received, stays, goes, kept, i, moved, dropped)
      modifies this`blocksInfo, this`count, this`endgameRemaining
      ensures Valid() && count == old(count) - 1
      ensures Resolving(w, received, stays, goes, kept, i, moved + [old(blocksInfo[..count][i])], dropped)
    {
      hide InTorrent, Config.Ok, CeilDiv, Split;
      ghost var window := blocksInfo[..count];
      var e := blocksInfo[i];
      assert e == window[i] && e in window;
      SwapRemoveSubset(window, i);
      SplitStep(w.pending, window, moved, dropped, i);
      BlocksSnoc(moved, e);
      endgameRemaining := endgameRemaining + [e.block];
      RemovePending(i);
    }

    /** The second loop: each pending request is cancelled, put back or left alone. */
    method ResolvePending(from: int, to: int, ghost s: State, ghost w: Window, ghost kept: seq<Block>)
      returns (n: nat, ghost moved: seq<Entry>, ghost dropped: seq<Entry>)
      requires Valid() && pm.Valid() && s == pm.Model() && from <= to
      requires Resolving(w, Got(pm.cfg, s), KeptUntil(to), ExpiredFrom(from), kept, 0, [], []) && Sent(CANCEL, [])
      modifies this`sendBuffer, this`endgameRemaining, this`blocksInfo, this`count
      ensures Valid() && n == |dropped|
      ensures Resolving(w, Got(pm.cfg, s), KeptUntil(to), ExpiredFrom(from), kept, count, moved, dropped)
      ensures Sent(CANCEL, Blocks(dropped))
    {
      hide PieceManager.Valid, PieceManager.Model, Got, InTorrent, Config.Ok, CeilDiv;
      hide Expires, ExpiredFrom, KeptUntil, Resolving, Sent;
      ghost var received := Got(pm.cfg, s);
      moved, dropped := [], [];
      assert Blocks(dropped) == [];
      n := 0;
      var i := 0;
      while i < count
        invariant Valid() && pm.Valid() && s == pm.Model() && n == |dropped| && i <= count
        invariant Resolving(w, received, KeptUntil(to), ExpiredFrom(from), kept, i, moved, dropped)
        invariant Sent(CANCEL, Blocks(dropped))
        decreases count - i
      {
        assert blocksInfo[i] == blocksInfo[..count][i] && blocksInfo[i] in blocksInfo[..count];
        var taken := CheckReceived(blocksInfo[i].block, s);
        ghost var e := blocksInfo[..count][i];
        var now: int :| from <= now <= to;
        ExpiresBetween(e, from, now, to);
        if taken {
          CancelPending(i, w, received, KeptUntil(to), ExpiredFrom(from), kept, moved, dropped);
          dropped := dropped + [e];
          n := n + 1;
        } else if Expires(blocksInfo[i], now) {
          RequeuePending(i, w, received, KeptUntil(to), ExpiredFrom(from), kept, moved, dropped);
          moved := moved + [e];
        } else {
          LeavePending(i, w, received, KeptUntil(to), ExpiredFrom(from), kept, moved, dropped);
          i := i + 1;
        }
      }
    }

    lemma LeavePending(i: nat, w: Window, received: Block -> bool, stays: Entry -> bool, goes: Entry -> bool,
                       kept: seq<Block>, moved: seq<Entry>, dropped: seq<Entry>)
      requires count <= |blocksInfo| && i < count && Resolving(w, received, stays, goes, kept, i, moved, dropped)
      requires !received(blocksInfo[..count][i].block) && stays(blocksInfo[..count][i])
      ensures Resolving(w, received, stays, goes, kept, i + 1, moved, dropped)
    {
    }

    /** The blocks received meanwhile are dropped or cancelled, the expired ones put back. */
    method EndgameRefreshPendingRequests(from: int, to: int) returns (n: nat, ghost cancelled: seq<Block>)
      requires Valid() && pm.Valid() && from <= to
      modifies this`sendBuffer, this`endgameRemaining, this`blocksInfo, this`count
      ensures Valid() && n == |cancelled|
      ensures Refreshed(old(W()), Got(pm.cfg, pm.Model()), KeptUntil(to), ExpiredFrom(from), W(), cancelled)
      ensures Sent(CANCEL, cancelled) && Decode(sendBuffer) == Some(Messages.Messages(CANCEL, cancelled))
    {
      hide PieceManager.Valid, PieceManager.Model, Got, InTorrent, Config.Ok, CeilDiv;
      hide Expires, ExpiredFrom, KeptUntil, Refreshed;
      ghost var s, w := pm.Model(), W();
      sendBuffer := [];
      DropReceived(s);
      ghost var kept := endgameRemaining;
      NothingSplit(w.pending);
      assert endgameRemaining == kept + Blocks([]);
      ghost var moved, dropped;
      n, moved, dropped := ResolvePending(from, to, s, w, kept);
      cancelled := Blocks(dropped);
      RefreshDone(w, Got(pm.cfg, s), KeptUntil(to), ExpiredFrom(from), kept, W(), moved, dropped);
      SentDecodes(CANCEL, cancelled);
    }

    lemma SentDecodes(id: byte, blocks: seq<Block>)
      requires Sent(id, blocks)
      ensures Decode(sendBuffer) == Some(Messages.Messages(id, blocks))
    {
      StreamDecodes(id, blocks, []);
      assert sendBuffer + [] == sendBuffer;
      assert Messages.Messages(id, blocks) + [] == Messages.Messages(id, blocks);
    }

    /** Adds a request to the window and to the send buffer. */
    method PushPending(b: Block, now: int, ghost sent: seq<Block>)
      requires Valid() && count < MAX_BLOCKS_IN_FLIGHT && InTorrent(pm.cfg, b) && Sent(REQUEST, sent)
      modifies this`sendBuffer, this`blocksInfo, this`count
      ensures Valid() && count == old(count) + 1
      ensures blocksInfo[..count] == old(blocksInfo[..count]) + [Entry(b, now)]
      ensures Sent(REQUEST, sent + [b])
    {
      hide InTorrent, Config.Ok, CeilDiv, Sent;
      AppendMessage(REQUEST, b, sent);
      ghost var before := blocksInfo[..count];
      blocksInfo := blocksInfo[count := Entry(b, now)];
      count := count + 1;
      assert blocksInfo[..count] == before + [Entry(b, now)];
    }

    /** Requests up to num of the remaining blocks: always the front one, whose place the
        last one takes. */
    method EndgameLoadBlockRequests(num: nat, from: int, to: int) returns (n: nat)
      requires Valid() && count + num <= MAX_BLOCKS_IN_FLIGHT && from <= to
      modifies this`sendBuffer, this`blocksInfo, this`count, this`endgameRemaining
      ensures Valid() && Loaded(old(W()), num, from, to, W()) && n == count - old(count)
      ensures TakenFromFront(old(endgameRemaining), n, endgameRemaining, Blocks(blocksInfo[..count])[old(count)..])
      ensures Decode(sendBuffer)
           == Some(Messages.Messages(REQUEST, Blocks(blocksInfo[..count])[old(count)..]))
    {
      hide InTorrent, Config.Ok, CeilDiv, Sent, Decode, TakenFromFront;
      ghost var w := W();
      sendBuffer := [];
      ghost var sent: seq<Block> := [];
      EmptySent();
      n := 0;
      assert w.pending[..|w.pending|] == w.pending;
      NothingTaken(w.remaining);
      for i := 0 to num
        invariant Valid() && n == |sent| == i && i <= |w.remaining| && count == |w.pending| + i
        invariant Loaded(w, i, from, to, W())
        invariant Blocks(blocksInfo[..count])[|w.pending|..] == sent && Sent(REQUEST, sent)
        invariant |endgameRemaining| == |w.remaining| - i && TakenFromFront(w.remaining, i, endgameRemaining, sent)
      {
        if endgameRemaining == [] {
          break;
        }
        var b := endgameRemaining[0];
        var now: int :| from <= now <= to;
        LoadStep(w, i, from, to, W(), b, now);
        SwapRemoveSubset(endgameRemaining, 0);
        TakeOneMore(w.remaining, i, endgameRemaining, sent);
        PushPending(b, now, sent);
        sent := sent + [b];
        n := n + 1;
        endgameRemaining := SwapRemove(endgameRemaining, 0);
      }
      SentDecodes(REQUEST, sent);
    }

    lemma EmptySent()
      requires sendBuffer == []
      ensures Sent(REQUEST, []) && Sent(CANCEL, [])
    {
    }

    /** The in-flight window is never overrun: at most five at a time, and only up to ten. */
    method EndgameTurn(from: int, to: int) returns (n: nat)
      requires Valid() && from <= to
      modifies this`sendBuffer, this`blocksInfo, this`count, this`endgameRemaining
      ensures Valid() && old(count) <= MAX_BLOCKS_IN_FLIGHT && n == count - old(count)
      ensures n <= 5 && count <= 10 && (n < 5 && count < 10 ==> endgameRemaining == [])
      ensures TakenFromFront(old(endgameRemaining), n, endgameRemaining, Blocks(blocksInfo[..count])[old(count)..])
      ensures var room := MAX_BLOCKS_IN_FLIGHT - old(count);
        Loaded(old(W()), if room < MAX_BLOCKS_PER_REQUEST then room else MAX_BLOCKS_PER_REQUEST, from, to, W())
      ensures Decode(sendBuffer) == Some(Messages.Messages(REQUEST, Blocks(blocksInfo[..count])[old(count)..]))
    {
      var room := MAX_BLOCKS_IN_FLIGHT - count;
      var num := if room < MAX_BLOCKS_PER_REQUEST then room else MAX_BLOCKS_PER_REQUEST;
      n := EndgameLoadBlockRequests(num, from, to);
    }

    // ----- before endgame --------------------------------------------------

    /** One block asked of the piece manager, as a step of the engine. */
    method AskForBlock(now: Clock) returns (answer: Option<Block>)
      requires Valid() && pm.Valid() && now.stamp > TIME_MIN
      modifies pm, pm.requested.Values, pm.dataPool, pm.dataPool.pool, pm.utilPool, pm.utilPool.pool
      ensures pm.Valid() && fresh(pm.requested.Values - old(pm.requested.Values))
      ensures Inv(pm.cfg, old(pm.Model())) && Inv(pm.cfg, pm.Model())
      ensures Step(pm.cfg, old(pm.Model()), BlockAsked(bitfield, now, answer), pm.Model())
      ensures answer.Some? ==> InTorrent(pm.cfg, answer.value)
    {
      hide *;
      ConnectionOk();
      pm.Unfold();
      ghost var s := pm.Model();
      answer := pm.RequestNextBlock(bitfield, now);
      pm.Unfold();
      AskIsStep(pm.cfg, s, bitfield, now, pm.Model(), answer);
    }

    lemma ConnectionOk()
      requires Valid()
      ensures pm.cfg.Ok() && |bitfield| == pm.piecesCnt == pm.cfg.PiecesCnt()
    {
    }

    /** Asks for up to num blocks and stops at the first refusal; each one granted is in the
        window and in the send buffer.  The i-th question reads the i-th clock, and the window's
        stamps are read between the two times. */
    method LoadBlockRequests(num: nat, clocks: nat -> Clock, from: int, to: int)
      returns (n: nat, ghost steps: seq<D.Transition>)
      requires Valid() && pm.Valid() && count + num <= MAX_BLOCKS_IN_FLIGHT
      requires Running(clocks) && from <= to && !pm.endgame
      modifies this`sendBuffer, this`blocksInfo, this`count
      modifies pm, pm.requested.Values, pm.dataPool, pm.dataPool.pool, pm.utilPool, pm.utilPool.pool
      ensures Valid() && pm.Valid() && n <= num && count == old(count) + n
      ensures Inv(pm.cfg, old(pm.Model())) && D.Leads(pm.cfg, old(pm.Model()), steps, pm.Model())
      ensures D.Gated(old(pm.Model()), steps)
      ensures |blocksInfo[..count]| == |old(blocksInfo[..count])| + n
      ensures old(blocksInfo[..count]) == blocksInfo[..count][..old(count)]
      ensures Stamped(blocksInfo[..count], old(count), from, to)
      ensures AskedFor(steps, bitfield, clocks, Blocks(blocksInfo[..count])[old(count)..], num)
      ensures Decode(sendBuffer)
           == Some(Messages.Messages(REQUEST, Blocks(blocksInfo[..count])[old(count)..]))
    {
      hide *;
      ConnectionOk();
      pm.Unfold();
      ghost var s, before := pm.Model(), blocksInfo[..count];
      sendBuffer := [];
      ghost var sent: seq<Block> := [];
      EmptySent();
      steps := [];
      StartLoading(pm.cfg, s, before, bitfield, clocks, from, to);
      ghost var refused := false;
      n := 0;
      for i := 0 to num
        invariant Valid() && pm.Valid() && n == i == |sent| && count == |before| + n && count <= |blocksInfo|
        invariant fresh(pm.requested.Values - old(pm.requested.Values))
        invariant pm.cfg.Ok() && Inv(pm.cfg, s) && D.Leads(pm.cfg, s, steps, pm.Model())
        invariant Appended(before, blocksInfo[..count], sent) && Sent(REQUEST, sent)
        invariant AskedSoFar(steps, bitfield, clocks, sent)
        invariant Stamped(blocksInfo[..count], |before|, from, to) && !refused
        invariant D.Gated(s, steps) && !pm.Model().endgame
      {
        ghost var t := pm.Model();
        ClockRuns(clocks, i);
        var answer := AskForBlock(clocks(i));
        steps := AskedOnce(pm.cfg, s, steps, t, bitfield, clocks, sent, answer, pm.Model(), num);
        if answer == None {
          refused := true;
          break;
        }
        var stamp: int :| from <= stamp <= to;
        AppendedOne(before, blocksInfo[..count], sent, Entry(answer.value, stamp), from, to);
        PushPending(answer.value, stamp, sent);
        sent := sent + [answer.value];
        n := n + 1;
      }
      LoadingDone(steps, bitfield, clocks, sent, num, refused, before, blocksInfo[..count]);
      SentDecodes(REQUEST, sent);
    }

    /** One turn of the sending loop.  While the peer is choking nothing happens.  In endgame
        mode the loop of that mode is entered; before it, five blocks are asked for if all five
        fit, and none otherwise. */
    method SendRequestsTurn(clocks: nat -> Clock, from: int, to: int)
      returns (entered: bool, n: nat, ghost steps: seq<D.Transition>)
      requires Valid() && pm.Valid() && Running(clocks) && from <= to
      modifies this`sendBuffer, this`blocksInfo, this`count, this`endgameRemaining
      modifies pm, pm.requested.Values, pm.dataPool, pm.dataPool.pool, pm.utilPool, pm.utilPool.pool
      ensures Valid() && pm.Valid() && entered == (!peerChoking && old(pm.endgame))
      ensures n <= count && |blocksInfo[..count]| == count
      ensures Inv(pm.cfg, old(pm.Model())) && D.Leads(pm.cfg, old(pm.Model()), steps, pm.Model())
      ensures D.Gated(old(pm.Model()), steps)
      ensures entered || peerChoking ==>
        n == 0 && pm.Model() == old(pm.Model()) && blocksInfo[..count] == old(blocksInfo[..count])
      ensures entered ==> Sifted(endgameRemaining, pm.Model().endgameRequests, OwnedBy(bitfield))
      ensures !entered ==> endgameRemaining == old(endgameRemaining)
      ensures !entered && !peerChoking ==>
        && SiftedBetween(blocksInfo[..count - n], old(blocksInfo[..count]), KeptUntil(to), ExpiredFrom(from))
        && TurnStep(old(blocksInfo[..count]), Turn(from, to, blocksInfo[..count][count - n..]), blocksInfo[..count])
        && Stamped(blocksInfo[..count], count - n, from, to)
        && AskedFor(steps, bitfield, clocks, Blocks(blocksInfo[..count])[count - n..], Quota(count - n))
        && FiveOrRefused(steps, bitfield, Blocks(blocksInfo[..count])[count - n..], count - n)
        && Decode(sendBuffer) == Some(Messages.Messages(REQUEST, Blocks(blocksInfo[..count])[count - n..]))
    {
      hide *;
      pm.Unfold();
      entered, n, steps := false, 0, [];
      StartLoading(pm.cfg, pm.Model(), blocksInfo[..count], bitfield, clocks, from, to);
      CountInRange();
      if peerChoking {
        return;
      }
      entered := pm.endgame;
      if entered {
        var hasBlocks := EnterEndgame();
      } else {
        ghost var before := blocksInfo[..count];
        n, steps := RefreshAndLoad(clocks, from, to);
        CountInRange();
        assert blocksInfo[..count][..count - n] == blocksInfo[..count - n];
        NumbersAre(steps, bitfield, clocks, Blocks(blocksInfo[..count])[count - n..], count - n);
        TurnIsStep(before, blocksInfo[..count], n, from, to, steps, bitfield, clocks);
      }
    }

    lemma CountInRange()
      requires Valid()
      ensures count <= |blocksInfo| && |blocksInfo[..count]| == count
    {
    }

    method RefreshAndLoad(clocks: nat -> Clock, from: int, to: int) returns (n: nat, ghost steps: seq<D.Transition>)
      requires Valid() && pm.Valid() && Running(clocks) && from <= to && !pm.endgame
      modifies this`sendBuffer, this`blocksInfo, this`count
      modifies pm, pm.requested.Values, pm.dataPool, pm.dataPool.pool, pm.utilPool, pm.utilPool.pool
      ensures Valid() && pm.Valid() && n <= count && |blocksInfo[..count]| == count
      ensures Inv(pm.cfg, old(pm.Model())) && D.Leads(pm.cfg, old(pm.Model()), steps, pm.Model())
      ensures D.Gated(old(pm.Model()), steps)
      ensures SiftedBetween(blocksInfo[..count - n], old(blocksInfo[..count]), KeptUntil(to), ExpiredFrom(from))
      ensures Stamped(blocksInfo[..count], count - n, from, to)
      ensures AskedFor(steps, bitfield, clocks, Blocks(blocksInfo[..count])[count - n..], Quota(count - n))
      ensures Decode(sendBuffer) == Some(Messages.Messages(REQUEST, Blocks(blocksInfo[..count])[count - n..]))
    {
      hide PieceManager.Valid, PieceManager.Model, InTorrent, Config.Ok, CeilDiv, SiftedBetween;
      hide Decode, Inv, KeptUntil, ExpiredFrom;
      hide D.Leads, D.Gated, AskedFor, AskedSoFar, Stamped, Running;
      RefreshPendingRequests(from, to);
      var num := Quota(count);
      ghost var kept := blocksInfo[..count];
      n, steps := LoadBlockRequests(num, clocks, from, to);
      assert kept == blocksInfo[..count - n];
    }

    /** Choke and unchoke messages. */
    method HandleChokeMessage(choking: bool)
      requires Valid()
      modifies this`peerChoking
      ensures Valid() && peerChoking == choking
    {
      hide *;
      peerChoking := choking;
    }

    // ----- running and leaving ---------------------------------------------

    /** A new run: nothing is pending and no bitfield message has come, but the bits of an
        earlier run are still there. */
    method StartRun()
      requires Valid()
      modifies this`blocksInfo, this`count, this`bitfieldReceived, this`peerChoking
      ensures Valid() && W() == Window(old(endgameRemaining), []) && !bitfieldReceived && peerChoking
    {
      hide InTorrent, Config.Ok, CeilDiv;
      count := 0;
      blocksInfo := seq(MAX_BLOCKS_IN_FLIGHT, _ => Entry(Block(0, 0, 0), 0));
      bitfieldReceived := false;
      peerChoking := true;
    }

    /** The end of a run: the bitfield is counted out if a bitfield message was counted in. */
    method StopRun()
      requires Valid() && pm.Valid()
      modifies pm`pieceAvail, pm`arePiecesSorted
      ensures Valid() && pm.Valid() && |old(pm.Model()).avail| <= |bitfield|
      ensures pm.Model()
           == if bitfieldReceived then CountPeer(pm.cfg, old(pm.Model()), bitfield, -1) else old(pm.Model())
    {
      hide *;
      ConnectionOk();
      pm.Unfold();
      if bitfieldReceived {
        pm.UpdatePiecesAvailability(bitfield, -1);
      }
    }

    // ----- messages from the peer ------------------------------------------

    /** A piece message is handed to the piece manager and settles the request it answers;
        one that is too short changes nothing. */
    method HandlePieceMessage(payload: seq<byte>)
      requires Valid() && pm.Valid()
      requires match ParsePieceMessage(payload)
        case None => true
        case Some((piece, data, offset)) =>
          piece in pm.requested ==> Arrives(pm.requested[piece].State(), offset, |data|)
      modifies this`blocksInfo, this`count, pm, pm.requested.Values, pm.fileManager.files
      modifies pm.dataPool, pm.dataPool.pool, pm.utilPool, pm.utilPool.pool
      ensures Valid() && pm.Valid()
      ensures match ParsePieceMessage(payload)
        case None => W() == old(W()) && pm.Model() == old(pm.Model())
        case Some((piece, data, offset)) =>
          && pm.cfg.Ok() && Inv(pm.cfg, old(pm.Model()))
          && pm.ArrivalOk(old(pm.Model()), piece, offset, |data|)
          && pm.Model() == AcceptBlock(pm.cfg, old(pm.Model()), piece, data, offset)
          && Answered(old(W()), Block(piece, offset, |data|), W())
    {
      hide *;
      match ParsePieceMessage(payload)
      case None =>
      case Some((piece, data, offset)) =>
        ConnectionOk();
        pm.Unfold();
        pm.ReceiveBlock(piece, data, offset);
        SettleRequest(Block(piece, offset, |data|));
    }

    /** Removes the first pending request for exactly this block, if there is one. */
    method SettleRequest(block: Block)
      requires Valid()
      modifies this`blocksInfo, this`count
      ensures Valid() && Answered(old(W()), block, W())
    {
      hide InTorrent, Config.Ok, CeilDiv;
      ghost var w := W();
      for i := 0 to count
        invariant Valid() && W() == w
        invariant forall j :: 0 <= j < i ==> Blocks(w.pending)[j] != block
      {
        if blocksInfo[i].block == block {
          assert Blocks(w.pending)[i] == block;
          assert IndexOf(Blocks(w.pending), block) == i;
          RemovePending(i);
          return;
        }
      }
    }

    /** A have message: one more peer has the piece. */
    method HandleHaveMessage(payload: seq<byte>, beyond: uint16)
      requires Valid() && pm.Valid() && |payload| == 4 && BigEndianValue(payload) < |bitfield|
      requires BigEndianValue(payload) < |pm.pieceAvail|
      modifies this`bitfield, pm`pieceAvail, pm`sortedPieces
      ensures Valid() && pm.Valid() && bitfield == old(bitfield)[BigEndianValue(payload) := true]
      ensures CountsOneMore(old(pm.Model()), BigEndianValue(payload), pm.Model())
    {
      hide BigEndianValue, ByteSwap, LeValue, PieceManager.Valid, PieceManager.Model, CountsOneMore;
      MemoryToNetworkOrder(payload);
      PeerHasPiece(HostToNetworkOrder(LeValue(payload)), beyond);
    }

    method PeerHasPiece(piece: nat, beyond: uint16)
      requires Valid() && pm.Valid() && piece < |bitfield|
      requires piece < |pm.pieceAvail|
      modifies this`bitfield, pm`pieceAvail, pm`sortedPieces
      ensures Valid() && pm.Valid() && bitfield == old(bitfield)[piece := true]
      ensures CountsOneMore(old(pm.Model()), piece, pm.Model())
    {
      hide *;
      SetBitfield(bitfield[piece := true]);
      pm.AddAvailablePiece(piece, beyond);
    }

    method SetBitfield(bits: seq<bool>)
      requires Valid() && |bits| == |bitfield|
      modifies this`bitfield
      ensures Valid() && bitfield == bits
    {
      hide InTorrent, Config.Ok;
      bitfield := bits;
    }

    /** A bitfield message: the peer's pieces are counted in. */
    method HandleBitfieldMessage(payload: seq<byte>)
      requires Valid() && pm.Valid() && |bitfield| <= 8 * |payload|
      modifies this`bitfield, this`bitfieldReceived, pm`pieceAvail, pm`arePiecesSorted
      ensures Valid() && pm.Valid() && bitfieldReceived
      ensures forall i :: 0 <= i < |bitfield| ==> bitfield[i] == BitOf(payload[i / 8], i % 8)
      ensures |old(pm.Model()).avail| <= |bitfield|
      ensures pm.Model() == CountPeer(pm.cfg, old(pm.Model()), bitfield, 1)
    {
      hide *;
      ConnectionOk();
      pm.Unfold();
      var bits := Unpack(payload, |bitfield|);
      SetBitfield(bits);
      bitfieldReceived := true;
      pm.UpdatePiecesAvailability(bits, 1);
    }
  }

  lemma StartLoading(cfg: Config, s: State, es: seq<Entry>, bits: seq<bool>, clocks: nat -> Clock, from: int, to: int)
    requires cfg.Ok() && Inv(cfg, s)
    ensures D.Leads(cfg, s, [], s) && D.Gated(s, []) && AskedSoFar([], bits, clocks, [])
    ensures Appended(es, es, []) && Stamped(es, |es|, from, to)
  {
  }

  /** A turn of the loop is a step of the window's run. */
  lemma TurnIsStep(before: seq<Entry>, after: seq<Entry>, n: nat, from: int, to: int,
                   steps: seq<D.Transition>, bits: seq<bool>, clocks: nat -> Clock)
    requires n <= |after| && SiftedBetween(after[..|after| - n], before, KeptUntil(to), ExpiredFrom(from))
    requires Stamped(after, |after| - n, from, to)
    requires AskedFor(steps, bits, clocks, Blocks(after)[|after| - n..], Quota(|after| - n))
    ensures TurnStep(before, Turn(from, to, after[|after| - n..]), after)
  {
    hide SiftedBetween, KeptUntil, ExpiredFrom, AskedSoFar;
    var asked := after[|after| - n..];
    assert after[..|after| - |asked|] == after[..|after| - n];
  }

  /** With at most five requests kept, five blocks are granted, or fewer and then none; with more,
      no question is put. */
  ghost predicate FiveOrRefused(steps: seq<D.Transition>, bits: seq<bool>, blocks: seq<Block>, kept: nat) {
    && |blocks| <= |steps| && (forall k :: 0 <= k < |steps| ==> Questions(steps[k].event, bits))
    && (forall k :: 0 <= k < |blocks| ==> steps[k].event.answer == Some(blocks[k]))
    && (kept > 5 ==> steps == [])
    && (kept <= 5 && |blocks| == 5 ==> |steps| == 5)
    && (kept <= 5 && |blocks| != 5 ==> |steps| == |blocks| + 1 <= 5 && steps[|blocks|].event.answer == None)
  }

  ghost predicate Questions(e: Event, bits: seq<bool>) {
    e.BlockAsked? && e.bits == bits
  }

  lemma NumbersAre(steps: seq<D.Transition>, bits: seq<bool>, clocks: nat -> Clock, blocks: seq<Block>, kept: nat)
    requires AskedFor(steps, bits, clocks, blocks, Quota(kept))
    ensures FiveOrRefused(steps, bits, blocks, kept)
  {
  }

  lemma AppendedOne(before: seq<Entry>, after: seq<Entry>, blocks: seq<Block>, e: Entry, from: int, to: int)
    requires Appended(before, after, blocks) && Stamped(after, |before|, from, to) && from <= e.time <= to
    ensures Appended(before, after + [e], blocks + [e.block]) && Stamped(after + [e], |before|, from, to)
  {
    BlocksSnoc(after, e);
  }

  /** One more question, as one more step of the engine. */
  lemma AskedOnce(cfg: Config, s: State, steps: seq<D.Transition>, t: State, bits: seq<bool>, clocks: nat -> Clock,
                  blocks: seq<Block>, answer: Option<Block>, t': State, num: nat)
    returns (more: seq<D.Transition>)
    requires cfg.Ok() && Inv(cfg, s) && Inv(cfg, t) && D.Leads(cfg, s, steps, t) && D.Gated(s, steps) && !t.endgame
    requires Step(cfg, t, BlockAsked(bits, clocks(|blocks|), answer), t') && Inv(cfg, t')
    requires AskedSoFar(steps, bits, clocks, blocks)
    ensures D.Leads(cfg, s, more, t') && D.Gated(s, more) && (answer.Some? ==> !t'.endgame)
    ensures if answer.Some? then AskedSoFar(more, bits, clocks, blocks + [answer.value])
      else |blocks| < num ==> AskedFor(more, bits, clocks, blocks, num)
  {
    hide Inv, Step, Config.Ok;
    var e := BlockAsked(bits, clocks(|blocks|), answer);
    D.GatedSnoc(cfg, s, steps, t, e, t');
    D.LeadsSnoc(cfg, s, steps, t, e, t');
    D.EndgameIsOneWay(cfg, t, e, t');
    more := steps + [D.Transition(e, t')];
    assert more[..|more| - 1] == steps;
  }

  lemma LoadingDone(steps: seq<D.Transition>, bits: seq<bool>, clocks: nat -> Clock, blocks: seq<Block>, num: nat,
                    refused: bool, before: seq<Entry>, after: seq<Entry>)
    requires Appended(before, after, blocks)
    requires if refused then AskedFor(steps, bits, clocks, blocks, num)
             else |blocks| == num && AskedSoFar(steps, bits, clocks, blocks)
    ensures AskedFor(steps, bits, clocks, blocks, num)
    ensures |after| == |before| + |blocks| && after[..|before|] == before && Blocks(after)[|before|..] == blocks
  {
  }

  /** The window is the one before, followed by requests for the given blocks. */
  ghost predicate Appended(before: seq<Entry>, after: seq<Entry>, blocks: seq<Block>) {
    && |after| == |before| + |blocks| && after[..|before|] == before
    && Blocks(after)[|before|..] == blocks
  }

  /** No clock reads the least time there is, which stands for "never asked". */
  ghost predicate Running(clocks: nat -> Clock) {
    forall k :: clocks(k).stamp > TIME_MIN
  }

  lemma ClockRuns(clocks: nat -> Clock, i: nat)
    requires Running(clocks)
    ensures clocks(i).stamp > TIME_MIN
  {
  }

  /** The engine was asked once per block, and granted each of them. */
  ghost predicate AskedSoFar(steps: seq<D.Transition>, bits: seq<bool>, clocks: nat -> Clock, blocks: seq<Block>) {
    && |steps| == |blocks|
    && forall k :: 0 <= k < |blocks| ==> steps[k].event == BlockAsked(bits, clocks(k), Some(blocks[k]))
  }

  /** ... and, if fewer than num were granted, once more in vain. */
  ghost predicate AskedFor(steps: seq<D.Transition>, bits: seq<bool>, clocks: nat -> Clock, blocks: seq<Block>,
                           num: nat) {
    || (|blocks| == num && AskedSoFar(steps, bits, clocks, blocks))
    || (|blocks| < num && |steps| > 0 && AskedSoFar(steps[..|steps| - 1], bits, clocks, blocks)
        && steps[|steps| - 1].event == BlockAsked(bits, clocks(|blocks|), None))
  }

  lemma AskIsStep(cfg: Config, s: State, bits: seq<bool>, now: Clock, s': State, answer: Option<Block>)
    requires cfg.Ok() && Inv(cfg, s) && |bits| == cfg.PiecesCnt() && now.stamp > TIME_MIN
    requires Answers(cfg, s, bits, now, s', answer)
    ensures Step(cfg, s, BlockAsked(bits, now, answer), s')
    ensures answer.Some? ==> InTorrent(cfg, answer.value)
  {
    if answer.Some? {
      var b := answer.value;
      ChunkFits(cfg.PieceLen(b.piece), BLOCK_SIZE, b.offset / BLOCK_SIZE);
    }
  }

  /** Moving the front remaining block to the end of the pending ones is one more load. */
  lemma LoadStep(w: Window, i: nat, from: int, to: int, v: Window, b: Block, now: int)
    requires i < |w.remaining| && Loaded(w, i, from, to, v)
    requires v.remaining != [] && b == v.remaining[0] && from <= now <= to
    ensures Loaded(w, i + 1, from, to, Window(SwapRemove(v.remaining, 0), v.pending + [Entry(b, now)]))
  {
    var v' := Window(SwapRemove(v.remaining, 0), v.pending + [Entry(b, now)]);
    SwapRemoveMultiset(v.remaining, 0);
    BlocksSnoc(v.pending, Entry(b, now));
    forall x ensures Holds(v', x) == Holds(w, x) {
      assert Holds(v, x) == Holds(w, x);
    }
    assert v'.pending[..|w.pending|] == v.pending[..|w.pending|];
  }

  lemma NothingSplit(es: seq<Entry>)
    ensures Split(es, es, [], [])
  {
  }

  /** Block names of a torrent fit the three words of a message. */
  lemma InTorrentFits(cfg: Config, b: Block)
    requires cfg.Ok() && InTorrent(cfg, b)
    ensures FitsWords(b)
  {
    ChunkFits(cfg.torrentSize, cfg.pieceSize, b.piece);
  }
}
