/** What the reversed expiry comparison does in the endgame loop: a late request stays in the
    window until its block is received, and a recent one is asked for again every time. */
module EndgameTurns {
  import opened Prelude
  import opened Pieces
  import opened Engine
  import opened Window
  import opened Download
  import opened Endgame
  import opened Turns

  /** No refresh gives up on a request that is late at that time, as none does that begins then
      or later. */
  ghost predicate RefreshesFrom(e: PeerEvent, now: int) {
    e.Refresh? ==> forall x :: e.goes(x) ==> Expires(x, now)
  }

  ghost predicate AllRefreshFrom(steps: seq<PeerTransition>, now: int) {
    forall k :: 0 <= k < |steps| ==> RefreshesFrom(steps[k].event, now)
  }

  /** The code's refresh, whose readings of the clock begin at `from`. */
  lemma CodeRefreshesFrom(from: int, to: int, cancelled: seq<Block>, now: int)
    requires now <= from
    ensures RefreshesFrom(Refresh(KeptUntil(to), ExpiredFrom(from), cancelled), now)
  {
  }

  ghost predicate NoneReceived(cfg: Config, s: State, es: multiset<Entry>) {
    forall x :: x in es ==> x.block.piece < |s.completed| && !IsReceived(cfg, s, x.block.piece, x.block.offset)
  }

  // ----- late requests are kept --------------------------------------------

  /** While its block is not received, a late request leaves the window by no step. */
  lemma LateStaysPending(cfg: Config, s: State, w: Window, e: PeerEvent, s': State, w': Window,
                         late: multiset<Entry>, now: int)
    requires cfg.Ok() && Inv(cfg, s) && PeerStep(cfg, s, w, e, s', w') && Inv(cfg, s') && !Discards(cfg, s, e)
    requires Covered(s) && RefreshesFrom(e, now)
    requires late <= multiset(w.pending) && Late(late, now)
    requires NoneReceived(cfg, s, late) && NoneReceived(cfg, s', late)
    ensures late <= multiset(w'.pending)
  {
    hide Inv, Covered, IsReceived, Mismatch, Refreshed, Loaded, Answered, Step, Late;
    match e
    case Refresh(stays, goes, cancelled) => LateSurvivesRefresh(cfg, s, w, e, w', late, now);
    case Load(n, from, to) => LoadKeepsPending(w, n, from, to, w');
    case OwnBlock(piece, data, offset) => LateSurvivesAnswer(cfg, s, w, piece, data, offset, s', w', late);
    case Elsewhere(event) =>
  }

  lemma LateSurvivesRefresh(cfg: Config, s: State, w: Window, e: PeerEvent, w': Window,
                            late: multiset<Entry>, now: int)
    requires e.Refresh? && Refreshed(w, Got(cfg, s), e.stays, e.goes, w', e.cancelled) && RefreshesFrom(e, now)
    requires late <= multiset(w.pending) && Late(late, now) && NoneReceived(cfg, s, late)
    ensures late <= multiset(w'.pending)
  {
    hide IsReceived;
    forall x | x in late ensures late[x] <= multiset(w'.pending)[x] {
      assert !Got(cfg, s)(x.block) && !e.goes(x);
    }
  }

  lemma LoadKeepsPending(w: Window, n: nat, from: int, to: int, w': Window)
    requires Loaded(w, n, from, to, w')
    ensures multiset(w.pending) <= multiset(w'.pending)
  {
    assert w'.pending == w.pending + w'.pending[|w.pending|..];
  }

  lemma LateSurvivesAnswer(cfg: Config, s: State, w: Window, piece: nat, data: seq<byte>, offset: nat,
                           s': State, w': Window, late: multiset<Entry>)
    requires cfg.Ok() && Inv(cfg, s) && Covered(s) && Step(cfg, s, BlockArrived(piece, data, offset), s')
    requires !Mismatch(cfg, s, BlockArrived(piece, data, offset)) && Answered(w, Block(piece, offset, |data|), w')
    requires late <= multiset(w.pending) && NoneReceived(cfg, s, late) && NoneReceived(cfg, s', late)
    ensures late <= multiset(w'.pending)
  {
    hide Inv, Covered, IsReceived, Mismatch, AcceptBlock, Step;
    ArrivalIs(cfg, s, piece, data, offset, s');
    SettledIsReceived(cfg, s, piece, data, offset);
    var block := Block(piece, offset, |data|);
    if block in Blocks(w.pending) {
      var i := IndexOf(Blocks(w.pending), block);
      assert w.pending[i] !in late;
      SwapRemoveMultiset(w.pending, i);
    }
  }

  lemma ArrivalIs(cfg: Config, s: State, piece: nat, data: seq<byte>, offset: nat, s': State)
    requires cfg.Ok() && Inv(cfg, s) && Step(cfg, s, BlockArrived(piece, data, offset), s')
    ensures piece in s.requested ==> Arrives(s.requested[piece], offset, |data|)
    ensures s' == AcceptBlock(cfg, s, piece, data, offset)
  {
  }

  lemma SettledIsReceived(cfg: Config, s: State, piece: nat, data: seq<byte>, offset: nat)
    requires cfg.Ok() && Inv(cfg, s) && Covered(s)
    requires piece in s.requested ==> Arrives(s.requested[piece], offset, |data|)
    requires !Mismatch(cfg, s, BlockArrived(piece, data, offset))
    ensures var s' := AcceptBlock(cfg, s, piece, data, offset);
      piece < |s.completed| ==> piece < |s'.completed| && IsReceived(cfg, s', piece, offset)
  {
    StateSizes(cfg, s);
    if piece < |s.completed| {
      ArrivalReceives(cfg, s, piece, data, offset, piece, offset);
      if !s.completed[piece] {
        assert piece in Incomplete(s.completed);
      }
    }
  }

  lemma {:induction false} ReceivedStays(cfg: Config, s: State, w: Window,
                                         steps: seq<PeerTransition>, t: State, v: Window, p: nat, off: nat)
    requires cfg.Ok() && Inv(cfg, s) && Interleaving(cfg, s, w, steps, t, v)
    requires p < |s.completed| && IsReceived(cfg, s, p, off)
    ensures p < |t.completed| && IsReceived(cfg, t, p, off)
    decreases |steps|
  {
    hide Inv, IsReceived, Discards;
    if steps != [] {
      var e, s', w' := steps[0].event, steps[0].after, steps[0].window;
      PeerStepKeepsInv(cfg, s, w, e, s', w');
      PeerStepKeepsReceived(cfg, s, w, e, s', w', p, off);
      ReceivedStays(cfg, s', w', steps[1..], t, v, p, off);
    }
  }

  lemma PeerStepKeepsReceived(cfg: Config, s: State, w: Window, e: PeerEvent, s': State, w': Window, p: nat, off: nat)
    requires cfg.Ok() && Inv(cfg, s) && PeerStep(cfg, s, w, e, s', w') && Inv(cfg, s') && !Discards(cfg, s, e)
    requires p < |s.completed| && IsReceived(cfg, s, p, off)
    ensures p < |s'.completed| && IsReceived(cfg, s', p, off)
  {
    StateSizes(cfg, s);
    StateSizes(cfg, s');
    hide Inv, Step, IsReceived, Mismatch;
    match e
    case OwnBlock(piece, data, offset) => StepKeepsReceived(cfg, s, BlockArrived(piece, data, offset), s', p, off);
    case Elsewhere(event) => StepKeepsReceived(cfg, s, event, s', p, off);
    case _ =>
  }

  /** Over any interleaving without a failed check, the late requests whose blocks are not
      received by its end are all still pending. */
  lemma {:induction false} LateStaysUntilReceived(cfg: Config, s: State, w: Window,
                                                  steps: seq<PeerTransition>, t: State, v: Window,
                                                  late: multiset<Entry>, now: int)
    requires cfg.Ok() && Inv(cfg, s) && Interleaving(cfg, s, w, steps, t, v) && s.endgame && Covered(s)
    requires AllRefreshFrom(steps, now) && late <= multiset(w.pending) && Late(late, now)
    requires Named(cfg, late) && NoneReceived(cfg, t, late)
    ensures late <= multiset(v.pending)
    decreases |steps|
  {
    hide Inv, Covered, IsReceived, PeerStep, Discards, RefreshesFrom, Late;
    if steps != [] {
      var e, s', w' := steps[0].event, steps[0].after, steps[0].window;
      PeerStepKeepsInv(cfg, s, w, e, s', w');
      EndgameStepCovered(cfg, s, w, e, s', w');
      UnreceivedBefore(cfg, s, w, steps, t, v, late);
      UnreceivedBefore(cfg, s', w', steps[1..], t, v, late);
      LateStaysPending(cfg, s, w, e, s', w', late, now);
      LateStaysUntilReceived(cfg, s', w', steps[1..], t, v, late, now);
    }
  }

  /** The entries are for pieces of the torrent. */
  ghost predicate Named(cfg: Config, es: multiset<Entry>)
    requires cfg.Ok()
  {
    forall x :: x in es ==> x.block.piece < cfg.PiecesCnt()
  }

  lemma UnreceivedBefore(cfg: Config, s: State, w: Window,
                         steps: seq<PeerTransition>, t: State, v: Window, es: multiset<Entry>)
    requires cfg.Ok() && Inv(cfg, s) && Interleaving(cfg, s, w, steps, t, v)
    requires Named(cfg, es) && NoneReceived(cfg, t, es)
    ensures NoneReceived(cfg, s, es)
  {
    StateSizes(cfg, s);
    hide Inv, IsReceived, Interleaving;
    forall x | x in es ensures !IsReceived(cfg, s, x.block.piece, x.block.offset) {
      if IsReceived(cfg, s, x.block.piece, x.block.offset) {
        ReceivedStays(cfg, s, w, steps, t, v, x.block.piece, x.block.offset);
        assert false;
      }
    }
  }

  lemma EndgameStepCovered(cfg: Config, s: State, w: Window, e: PeerEvent, s': State, w': Window)
    requires cfg.Ok() && Inv(cfg, s) && PeerStep(cfg, s, w, e, s', w') && Inv(cfg, s')
    requires s.endgame && Covered(s) && !Discards(cfg, s, e)
    ensures s'.endgame && Covered(s')
  {
    hide Inv, Step, Covered, Mismatch;
    match e
    case OwnBlock(piece, data, offset) => StepKeepsCovered(cfg, s, BlockArrived(piece, data, offset), s');
    case Elsewhere(event) => StepKeepsCovered(cfg, s, event, s');
    case _ =>
  }

  // ----- a full window of late requests ------------------------------------

  /** Every load asks for no more than the window has room for. */
  ghost predicate LoadsFit(w: Window, steps: seq<PeerTransition>)
    decreases |steps|
  {
    steps == []
    || ((steps[0].event.Load? ==> |w.pending| + steps[0].event.n <= MAX_BLOCKS_IN_FLIGHT)
        && LoadsFit(steps[0].window, steps[1..]))
  }

  ghost predicate LoadsNothing(w: Window, steps: seq<PeerTransition>)
    decreases |steps|
  {
    steps == []
    || ((steps[0].event.Load? ==> steps[0].window.pending == w.pending) && LoadsNothing(steps[0].window, steps[1..]))
  }

  /** Ten late requests whose blocks do not come: over every interleaving, no load asks for
      anything. */
  lemma {:induction false} TenLateAskNothing(cfg: Config, s: State, w: Window,
                                             steps: seq<PeerTransition>, t: State, v: Window,
                                             late: multiset<Entry>, now: int)
    requires cfg.Ok() && Inv(cfg, s) && Interleaving(cfg, s, w, steps, t, v) && s.endgame && Covered(s)
    requires AllRefreshFrom(steps, now) && late <= multiset(w.pending) && Late(late, now)
    requires Named(cfg, late) && NoneReceived(cfg, t, late)
    requires |late| >= MAX_BLOCKS_IN_FLIGHT && LoadsFit(w, steps)
    ensures LoadsNothing(w, steps)
    decreases |steps|
  {
    hide Inv, Covered, IsReceived, PeerStep, Discards, RefreshesFrom, Late;
    if steps != [] {
      var e, s', w' := steps[0].event, steps[0].after, steps[0].window;
      PeerStepKeepsInv(cfg, s, w, e, s', w');
      EndgameStepCovered(cfg, s, w, e, s', w');
      UnreceivedBefore(cfg, s, w, steps, t, v, late);
      UnreceivedBefore(cfg, s', w', steps[1..], t, v, late);
      LateStaysPending(cfg, s, w, e, s', w', late, now);
      SubsetSize(late, w.pending);
      EmptyLoad(cfg, s, w, e, s', w');
      TenLateAskNothing(cfg, s', w', steps[1..], t, v, late, now);
    }
  }

  lemma EmptyLoad(cfg: Config, s: State, w: Window, e: PeerEvent, s': State, w': Window)
    requires cfg.Ok() && Inv(cfg, s) && PeerStep(cfg, s, w, e, s', w')
    ensures e.Load? && e.n == 0 ==> w'.pending == w.pending
  {
    hide Inv;
    if e.Load? && e.n == 0 {
      assert w'.pending == w'.pending[..|w.pending|];
    }
  }

  /** Two loads further apart than the timeout fill the window: from then on it is late. */
  lemma TwoLoadsFill(cfg: Config, s: State, first: seq<Block>, second: seq<Block>, t1: int, t2: int)
    returns (steps: seq<PeerTransition>, v: Window)
    requires cfg.Ok() && Inv(cfg, s) && t2 - t1 > REQUEST_TIMEOUT
    requires |first| == MAX_BLOCKS_PER_REQUEST == |second| && forall b :: b in first + second ==> !Got(cfg, s)(b)
    ensures Interleaving(cfg, s, Window(first + second, []), steps, s, v) && LoadsFit(Window(first + second, []), steps)
    ensures v.pending == At(first, t1) + At(second, t2) && |v.pending| == MAX_BLOCKS_IN_FLIGHT
    ensures Late(multiset(v.pending), t2 + REQUEST_TIMEOUT + 1)
  {
    hide Inv, Refreshed, Loaded, Got;
    var w0 := Window(first + second, []);
    var w1 := Window(second, At(first, t1));
    v := Window([], At(first, t1) + At(second, t2));
    var refresh := Refresh(KeptUntil(t2), ExpiredFrom(t2), []);
    LoadAll(first, second, [], t1);
    assert [] + At(first, t1) == At(first, t1);
    AtIsLate(first, t1, t2);
    NothingExpires(w1, Got(cfg, s), t2);
    assert second + [] == second;
    LoadAll(second, [], At(first, t1), t2);
    var load1, load2 := Load(MAX_BLOCKS_PER_REQUEST, t1, t1), Load(MAX_BLOCKS_PER_REQUEST, t2, t2);
    var one := Cons(cfg, s, w1, load2, v, [], v);
    var two := Cons(cfg, s, w1, refresh, w1, one, v);
    steps := Cons(cfg, s, w0, load1, w1, two, v);
    AtIsLate(first, t1, t2 + REQUEST_TIMEOUT + 1);
    AtIsLate(second, t2, t2 + REQUEST_TIMEOUT + 1);
  }

  /** One more step of this peer before an interleaving. */
  lemma Cons(cfg: Config, s: State, w: Window, e: PeerEvent, w': Window, rest: seq<PeerTransition>, v: Window)
    returns (steps: seq<PeerTransition>)
    requires cfg.Ok() && Inv(cfg, s) && PeerStep(cfg, s, w, e, s, w') && (e.Refresh? || e.Load?)
    requires Interleaving(cfg, s, w', rest, s, v)
    ensures steps == [PeerTransition(e, s, w')] + rest && Interleaving(cfg, s, w, steps, s, v)
    ensures LoadsFit(w', rest) && (e.Load? ==> |w.pending| + e.n <= MAX_BLOCKS_IN_FLIGHT) ==> LoadsFit(w, steps)
  {
    hide Inv, PeerStep;
    steps := [PeerTransition(e, s, w')] + rest;
    assert steps[1..] == rest;
  }

  /** A load that takes just these blocks from the remaining ones. */
  lemma LoadAll(blocks: seq<Block>, others: seq<Block>, pending: seq<Entry>, now: int)
    requires |blocks| <= MAX_BLOCKS_PER_REQUEST && (others == [] || |blocks| == MAX_BLOCKS_PER_REQUEST)
    ensures Loaded(Window(blocks + others, pending), MAX_BLOCKS_PER_REQUEST, now, now,
                   Window(others, pending + At(blocks, now)))
  {
    var w, w' := Window(blocks + others, pending), Window(others, pending + At(blocks, now));
    assert w'.pending[..|pending|] == pending;
    assert Blocks(w'.pending) == Blocks(pending) + blocks;
    forall x ensures Holds(w', x) == Holds(w, x) {
      assert multiset(blocks + others)[x] == multiset(blocks)[x] + multiset(others)[x];
    }
  }

  /** A refresh of a window that is late and unreceived changes nothing. */
  lemma NothingExpires(w: Window, received: Block -> bool, now: int)
    requires Late(multiset(w.pending), now)
    requires forall b :: b in w.remaining || b in Blocks(w.pending) ==> !received(b)
    ensures Refreshed(w, received, KeptUntil(now), ExpiredFrom(now), w, [])
  {
    forall x: Block ensures Holds(w, x) == if received(x) then 0 else Holds(w, x) {
      assert multiset(w.remaining)[x] > 0 <==> x in w.remaining;
      assert multiset(Blocks(w.pending))[x] > 0 <==> x in Blocks(w.pending);
    }
    forall e | e in w.pending ensures !received(e.block) && KeptUntil(now)(e) {
      assert e in multiset(w.pending);
      var k :| 0 <= k < |w.pending| && w.pending[k] == e;
      assert Blocks(w.pending)[k] == e.block;
    }
    assert Sifted([], Blocks(w.pending), received) by {
      forall x ensures multiset([])[x] == if received(x) then multiset(Blocks(w.pending))[x] else 0 {
        assert multiset(Blocks(w.pending))[x] > 0 <==> x in Blocks(w.pending);
      }
    }
  }

  // ----- recent requests are made again ------------------------------------

  /** A refresh at which every request is recent empties the window of requests: what is not
      received is all to be asked for again. */
  lemma RecentGoBack(w: Window, received: Block -> bool, from: int, to: int, w': Window, cancelled: seq<Block>)
    requires Refreshed(w, received, KeptUntil(to), ExpiredFrom(from), w', cancelled)
    requires forall e :: e in w.pending ==> Expires(e, to)
    ensures w'.pending == []
    ensures forall x :: multiset(w'.remaining)[x] == if received(x) then 0 else Holds(w, x)
  {
    hide Refreshed, Holds;
    RefreshedParts(w, received, KeptUntil(to), ExpiredFrom(from), w', cancelled);
    NothingPending(w');
  }

  lemma RefreshedParts(w: Window, received: Block -> bool, stays: Entry -> bool, goes: Entry -> bool,
                       w': Window, cancelled: seq<Block>)
    requires Refreshed(w, received, stays, goes, w', cancelled)
    ensures forall e :: e in w'.pending ==> e in w.pending && stays(e)
    ensures w'.pending == [] || (w'.pending[0] in w.pending && stays(w'.pending[0]))
    ensures forall x :: Holds(w', x) == if received(x) then 0 else Holds(w, x)
  {
    forall e | e in w'.pending ensures e in w.pending && stays(e) {
      assert e in multiset(w'.pending) && e in multiset(w.pending);
    }
  }

  lemma NothingPending(w: Window)
    ensures w.pending == [] ==> forall x :: Holds(w, x) == multiset(w.remaining)[x]
  {
  }

  /** ... and a load with room for them asks for each of them again. */
  lemma EachIsAskedAgain(w: Window, received: Block -> bool, from: int, to: int, w1: Window, cancelled: seq<Block>,
                         n: nat, since: int, until: int, w2: Window)
    requires Refreshed(w, received, KeptUntil(to), ExpiredFrom(from), w1, cancelled)
    requires forall e :: e in w.pending ==> Expires(e, to)
    requires Loaded(w1, n, since, until, w2) && |w1.remaining| <= n
    ensures w2.remaining == []
    ensures forall x :: multiset(Blocks(w2.pending))[x] == if received(x) then 0 else Holds(w, x)
  {
    RecentGoBack(w, received, from, to, w1, cancelled);
    hide Refreshed;
    HoldsSize(w1, w2);
    assert |w2.pending| == |w1.remaining|;
    forall x ensures multiset(Blocks(w2.pending))[x] == if received(x) then 0 else Holds(w, x) {
      assert Holds(w2, x) == Holds(w1, x);
    }
  }

  lemma HoldsSize(w: Window, w': Window)
    requires forall x :: Holds(w', x) == Holds(w, x)
    ensures |w'.remaining| + |w'.pending| == |w.remaining| + |w.pending|
  {
    var a := multiset(w.remaining) + multiset(Blocks(w.pending));
    var b := multiset(w'.remaining) + multiset(Blocks(w'.pending));
    forall x ensures a[x] == b[x] {
      assert Holds(w', x) == Holds(w, x);
    }
    assert a == b;
    assert |a| == |w.remaining| + |w.pending| && |b| == |w'.remaining| + |w'.pending|;
  }

  /** In steps 2k and 2k + 1 the window is refreshed and loaded again, with these blocks. */
  ghost predicate AsksAgain(steps: seq<PeerTransition>, blocks: seq<Block>) {
    forall k :: 0 <= k < |steps| ==>
      if k % 2 == 0 then steps[k].event.Refresh? && steps[k].window == Window(blocks, [])
      else steps[k].event.Load? && Blocks(steps[k].window.pending) == blocks
  }

  /** Up to five blocks that nobody delivers are asked for again in every turn, as often as
      there are turns, if these are no further apart than the timeout. */
  lemma {:induction false} AskedAgainForEver(cfg: Config, s: State, blocks: seq<Block>, time: int,
                                             interval: nat, n: nat)
    returns (steps: seq<PeerTransition>, v: Window)
    requires cfg.Ok() && Inv(cfg, s) && interval <= REQUEST_TIMEOUT
    requires |blocks| <= MAX_BLOCKS_PER_REQUEST && forall b :: b in blocks ==> !Got(cfg, s)(b)
    ensures Interleaving(cfg, s, Window([], At(blocks, time)), steps, s, v)
    ensures |steps| == 2 * n && AsksAgain(steps, blocks)
    decreases n
  {
    hide Inv, Refreshed, Loaded, Got;
    var w := Window([], At(blocks, time));
    if n == 0 {
      steps, v := [], w;
    } else {
      var now := time + interval;
      var mid, next := Window(blocks, []), Window([], At(blocks, now));
      var refresh := Refresh(KeptUntil(now), ExpiredFrom(now), []);
      AllGoBack(blocks, time, now, Got(cfg, s));
      LoadAll(blocks, [], [], now);
      assert blocks + [] == blocks && [] + At(blocks, now) == At(blocks, now);
      var rest;
      rest, v := AskedAgainForEver(cfg, s, blocks, now, interval, n - 1);
      var load := Cons(cfg, s, mid, Load(MAX_BLOCKS_PER_REQUEST, now, now), next, rest, v);
      steps := Cons(cfg, s, w, refresh, mid, load, v);
      forall k | 0 <= k < |steps|
        ensures if k % 2 == 0 then steps[k].event.Refresh? && steps[k].window == Window(blocks, [])
                else steps[k].event.Load? && Blocks(steps[k].window.pending) == blocks
      {
        if k >= 2 {
          assert steps[k] == rest[k - 2];
        }
      }
    }
  }

  lemma AllGoBack(blocks: seq<Block>, time: int, now: int, received: Block -> bool)
    requires now - time <= REQUEST_TIMEOUT && forall b :: b in blocks ==> !received(b)
    ensures Refreshed(Window([], At(blocks, time)), received, KeptUntil(now), ExpiredFrom(now), Window(blocks, []), [])
  {
    var w, w' := Window([], At(blocks, time)), Window(blocks, []);
    forall x: Block ensures Holds(w', x) == if received(x) then 0 else Holds(w, x) {
      assert multiset(blocks)[x] > 0 <==> x in blocks;
    }
    forall e | multiset([])[e] < multiset(w.pending)[e] ensures ExpiredFrom(now)(e) {
      assert e in w.pending;
    }
    forall x ensures multiset([])[x] == if received(x) then multiset(Blocks(w.pending))[x] else 0 {
      assert multiset(blocks)[x] > 0 <==> x in blocks;
    }
  }
}
