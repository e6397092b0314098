/** What becomes of a peer's pending requests over many turns of the sending loop before
    endgame mode.  The expiry comparison is reversed, so the requests that are late are kept
    and those that are not are forgotten. */
module Turns {
  import opened Prelude
  import opened Engine
  import opened Window

  /** A turn of the loop, or a piece message.  Between the two the window does not change. */
  datatype TurnEvent =
    | Turn(from: int, to: int, asked: seq<Entry>)
    | Settled(block: Block)

  datatype TurnTransition = TurnTransition(event: TurnEvent, after: seq<Entry>)

  /** A turn keeps some requests and then asks for at most the quota; a piece message settles
      the first request for its block. */
  ghost predicate TurnStep(es: seq<Entry>, e: TurnEvent, es': seq<Entry>) {
    match e
    case Turn(from, to, asked) =>
      && |asked| <= |es'| && es'[|es'| - |asked|..] == asked && Stamped(asked, 0, from, to)
      && |asked| <= Quota(|es'| - |asked|)
      && SiftedBetween(es'[..|es'| - |asked|], es, KeptUntil(to), ExpiredFrom(from))
    case Settled(block) => Answered(Window([], es), block, Window([], es'))
  }

  ghost predicate TurnsLead(es: seq<Entry>, steps: seq<TurnTransition>, es': seq<Entry>)
    decreases |steps|
  {
    if steps == [] then es' == es
    else TurnStep(es, steps[0].event, steps[0].after) && TurnsLead(steps[0].after, steps[1..], es')
  }

  lemma {:induction false} TurnsSnoc(es: seq<Entry>, steps: seq<TurnTransition>, mid: seq<Entry>,
                                     e: TurnEvent, es': seq<Entry>)
    requires TurnsLead(es, steps, mid) && TurnStep(mid, e, es')
    ensures TurnsLead(es, steps + [TurnTransition(e, es')], es')
    decreases |steps|
  {
    hide TurnStep;
    var more := steps + [TurnTransition(e, es')];
    if steps == [] {
      assert more[1..] == [];
    } else {
      TurnsSnoc(steps[0].after, steps[1..], mid, e, es');
      assert more[1..] == steps[1..] + [TurnTransition(e, es')];
    }
  }

  /** A piece message is such a step. */
  lemma AnswerIsStep(w: Window, block: Block, w': Window)
    requires Answered(w, block, w')
    ensures TurnStep(w.pending, Settled(block), w'.pending)
  {
  }

  function SettledCount(steps: seq<TurnTransition>): nat {
    if steps == [] then 0 else (if steps[0].event.Settled? then 1 else 0) + SettledCount(steps[1..])
  }

  lemma {:induction false} SettledCountIs(steps: seq<TurnTransition>)
    ensures SettledCount(steps) == |set k | 0 <= k < |steps| && steps[k].event.Settled?|
  {
    var at := set k | 0 <= k < |steps| && steps[k].event.Settled?;
    if steps != [] {
      var n := |steps| - 1;
      var front := steps[..n];
      SettledCountIs(front);
      SettledCountSnoc(front, steps[n]);
      assert steps == front + [steps[n]];
      var rest := set k | 0 <= k < n && front[k].event.Settled?;
      assert at == if steps[n].event.Settled? then rest + {n} else rest;
    }
  }

  lemma {:induction false} SettledCountSnoc(steps: seq<TurnTransition>, t: TurnTransition)
    ensures SettledCount(steps + [t]) == SettledCount(steps) + (if t.event.Settled? then 1 else 0)
  {
    var more := steps + [t];
    if steps == [] {
      assert more[1..] == [];
    } else {
      SettledCountSnoc(steps[1..], t);
      assert more[1..] == steps[1..] + [t];
    }
  }

  // ----- late requests are kept --------------------------------------------

  /** These requests are older than the timeout at that time. */
  ghost predicate Late(es: multiset<Entry>, now: int) {
    forall e :: e in es ==> now - e.time > REQUEST_TIMEOUT
  }

  ghost predicate TurnsFrom(steps: seq<TurnTransition>, now: int) {
    forall k :: 0 <= k < |steps| && steps[k].event.Turn? ==> steps[k].event.from >= now
  }

  ghost predicate AsksNothing(steps: seq<TurnTransition>) {
    forall k :: 0 <= k < |steps| && steps[k].event.Turn? ==> steps[k].event.asked == []
  }

  /** A late request leaves the window only by being answered, one for each answer. */
  lemma LateStays(es: seq<Entry>, e: TurnEvent, es': seq<Entry>, late: multiset<Entry>, now: int)
    returns (late': multiset<Entry>)
    requires TurnStep(es, e, es') && late <= multiset(es) && Late(late, now) && (e.Turn? ==> e.from >= now)
    ensures late' <= multiset(es') && late' <= late
    ensures match e
      case Turn(_, _, _) => late' == late && late <= multiset(es'[..|es'| - |e.asked|])
      case Settled(block) => |late'| >= |late| - 1 && forall x: Entry :: x.block != block ==> late'[x] == late[x]
  {
    match e
    case Turn(from, to, asked) =>
      late' := late;
      LateIsKept(es, es'[..|es'| - |asked|], late, from, to);
      assert es' == es'[..|es'| - |asked|] + asked;
    case Settled(block) =>
      late' := OneIsSettled(es, block, es', late);
  }

  lemma OneIsSettled(es: seq<Entry>, block: Block, es': seq<Entry>, late: multiset<Entry>)
    returns (late': multiset<Entry>)
    requires TurnStep(es, Settled(block), es') && late <= multiset(es)
    ensures late' <= multiset(es') && late' <= late && |late'| >= |late| - 1
    ensures forall x: Entry :: x.block != block ==> late'[x] == late[x]
  {
    late' := late;
    if block in Blocks(es) {
      var i := IndexOf(Blocks(es), block);
      SwapRemoveMultiset(es, i);
      late' := late - multiset{es[i]};
    }
  }

  lemma LateIsKept(es: seq<Entry>, kept: seq<Entry>, late: multiset<Entry>, from: int, to: int)
    requires SiftedBetween(kept, es, KeptUntil(to), ExpiredFrom(from)) && late <= multiset(es) && Late(late, from)
    ensures late <= multiset(kept)
  {
    forall x | x in late ensures late[x] <= multiset(kept)[x] {
      assert !ExpiredFrom(from)(x);
    }
  }

  /** While more than five late requests are unanswered, the peer is asked for nothing: over
      every run in which the answers leave more than five of them. */
  lemma {:induction false} LateStarve(es: seq<Entry>, steps: seq<TurnTransition>, es': seq<Entry>,
                                      late: multiset<Entry>, now: int)
    requires TurnsLead(es, steps, es') && late <= multiset(es) && Late(late, now) && TurnsFrom(steps, now)
    requires |late| > MAX_BLOCKS_PER_REQUEST + SettledCount(steps)
    ensures AsksNothing(steps)
    ensures |es'| > MAX_BLOCKS_PER_REQUEST
    decreases |steps|
  {
    hide TurnStep;
    if steps == [] {
      SubsetSize(late, es);
    } else {
      var e, mid := steps[0].event, steps[0].after;
      var late' := LateStays(es, e, mid, late, now);
      if e.Turn? {
        SizeOfKept(es, e, mid);
        SubsetSize(late, mid[..|mid| - |e.asked|]);
      }
      LateStarve(mid, steps[1..], es', late', now);
      forall k | 0 <= k < |steps| && steps[k].event.Turn? ensures steps[k].event.asked == [] {
        if k > 0 {
          assert steps[k] == steps[1..][k - 1];
        }
      }
    }
  }

  lemma SizeOfKept(es: seq<Entry>, e: TurnEvent, es': seq<Entry>)
    requires e.Turn? && TurnStep(es, e, es')
    ensures |e.asked| <= |es'| && |e.asked| <= Quota(|es'| - |e.asked|)
  {
  }

  lemma SubsetSize(part: multiset<Entry>, es: seq<Entry>)
    requires part <= multiset(es)
    ensures |part| <= |es|
  {
    assert multiset(es) == part + (multiset(es) - part);
  }

  ghost predicate Unanswered(steps: seq<TurnTransition>, block: Block) {
    forall k :: 0 <= k < |steps| ==> steps[k].event != Settled(block)
  }

  /** A late request whose block is not answered never leaves. */
  lemma {:induction false} LateIsNeverDropped(es: seq<Entry>, steps: seq<TurnTransition>, es': seq<Entry>,
                                              late: multiset<Entry>, now: int)
    requires TurnsLead(es, steps, es') && late <= multiset(es) && Late(late, now) && TurnsFrom(steps, now)
    requires forall x :: x in late ==> Unanswered(steps, x.block)
    ensures late <= multiset(es')
    decreases |steps|
  {
    hide TurnStep;
    if steps != [] {
      var e, mid := steps[0].event, steps[0].after;
      var late' := LateStays(es, e, mid, late, now);
      assert late' == late by {
        forall x | x in late ensures late'[x] == late[x] {
          assert steps[0].event != Settled(x.block);
        }
      }
      LateIsNeverDropped(mid, steps[1..], es', late, now);
    }
  }

  /** Entries for these blocks, all stamped with one time. */
  function At(blocks: seq<Block>, time: int): (es: seq<Entry>)
    ensures |es| == |blocks| && Blocks(es) == blocks
    ensures forall k :: 0 <= k < |es| ==> es[k].time == time
  {
    seq(|blocks|, k requires 0 <= k < |blocks| => Entry(blocks[k], time))
  }

  /** A turn that keeps everything, or nothing, and asks for these blocks. */
  lemma FullTurn(es: seq<Entry>, kept: seq<Entry>, now: int, blocks: seq<Block>)
    requires |blocks| <= Quota(|kept|)
    requires (kept == es && Late(multiset(es), now)) || (kept == [] && forall x :: x in es ==> Expires(x, now))
    ensures TurnStep(es, Turn(now, now, At(blocks, now)), kept + At(blocks, now))
  {
    var es' := kept + At(blocks, now);
    assert es'[..|kept|] == kept && es'[|kept|..] == At(blocks, now);
  }

  /** Nothing is asked for in any run from then on that answers fewer than five requests. */
  ghost predicate StarvesFrom(es: seq<Entry>, now: int) {
    forall steps, es' :: StarvingRun(es, steps, es', now) ==> AsksNothing(steps)
  }

  ghost predicate StarvingRun(es: seq<Entry>, steps: seq<TurnTransition>, es': seq<Entry>, now: int) {
    TurnsLead(es, steps, es') && TurnsFrom(steps, now) && SettledCount(steps) < MAX_BLOCKS_PER_REQUEST
  }

  lemma FullWindowStarves(es: seq<Entry>, now: int)
    requires |es| == MAX_BLOCKS_IN_FLIGHT && Late(multiset(es), now)
    ensures StarvesFrom(es, now)
  {
    hide TurnsLead, AsksNothing, Late, TurnsFrom, SettledCount;
    forall steps, es' | StarvingRun(es, steps, es', now) ensures AsksNothing(steps) {
      LateStarve(es, steps, es', multiset(es), now);
    }
  }

  lemma TwoTurns(first: seq<Block>, second: seq<Block>, t1: int, t2: int) returns (steps: seq<TurnTransition>)
    requires |first| == MAX_BLOCKS_PER_REQUEST == |second| && t2 - t1 > REQUEST_TIMEOUT
    ensures TurnsLead([], steps, At(first, t1) + At(second, t2)) && SettledCount(steps) == 0
  {
    hide TurnStep, Quota, SettledCount, TurnsLead, Late, At, Blocks;
    var one, two := At(first, t1), At(first, t1) + At(second, t2);
    var e1, e2 := Turn(t1, t1, one), Turn(t2, t2, At(second, t2));
    NoTurns([]);
    FullFits();
    FullTurn([], [], t1, first);
    assert [] + one == one;
    TurnsSnoc([], [], [], e1, one);
    AtIsLate(first, t1, t2);
    FullTurn(one, one, t2, second);
    TurnsSnoc([], [] + [TurnTransition(e1, one)], one, e2, two);
    steps := [] + [TurnTransition(e1, one)] + [TurnTransition(e2, two)];
    OnlyTurns(steps);
  }

  lemma AtIsLate(blocks: seq<Block>, time: int, now: int)
    requires now - time > REQUEST_TIMEOUT
    ensures Late(multiset(At(blocks, time)), now)
  {
    forall e | e in multiset(At(blocks, time)) ensures e.time == time {
      assert e in At(blocks, time);
    }
  }

  lemma NoTurns(es: seq<Entry>)
    ensures TurnsLead(es, [], es)
  {
  }

  lemma FullFits()
    ensures Quota(0) == Quota(MAX_BLOCKS_PER_REQUEST) == MAX_BLOCKS_PER_REQUEST
  {
  }

  lemma {:induction false} OnlyTurns(steps: seq<TurnTransition>)
    requires forall k :: 0 <= k < |steps| ==> steps[k].event.Turn?
    ensures SettledCount(steps) == 0
  {
    if steps != [] {
      OnlyTurns(steps[1..]);
    }
  }

  /** Two turns further apart than the timeout, as when the peer chokes meanwhile, are enough:
      whatever ten blocks they ask for, the window is then full of late requests. */
  lemma TwoTurnsStarve(first: seq<Block>, second: seq<Block>, t1: int, t2: int)
    returns (steps: seq<TurnTransition>, es: seq<Entry>)
    requires |first| == MAX_BLOCKS_PER_REQUEST == |second| && t2 - t1 > REQUEST_TIMEOUT
    ensures TurnsLead([], steps, es) && SettledCount(steps) == 0 && Blocks(es) == first + second
    ensures StarvesFrom(es, t2 + REQUEST_TIMEOUT + 1)
  {
    hide TurnsLead, StarvesFrom;
    steps := TwoTurns(first, second, t1, t2);
    es := At(first, t1) + At(second, t2);
    assert Blocks(es) == first + second;
    FullWindowStarves(es, t2 + REQUEST_TIMEOUT + 1);
  }

  // ----- recent requests are forgotten -------------------------------------

  /** No turn ends later than the timeout after the one before it began. */
  ghost predicate Brisk(steps: seq<TurnTransition>, last: int)
    decreases |steps|
  {
    steps == [] ||
    match steps[0].event
    case Turn(from, to, _) => to <= last + REQUEST_TIMEOUT && Brisk(steps[1..], from)
    case Settled(_) => Brisk(steps[1..], last)
  }

  ghost predicate StampedSince(es: seq<Entry>, last: int) {
    forall k :: 0 <= k < |es| ==> es[k].time >= last
  }

  lemma KeptWerePending(r: seq<Entry>, s: seq<Entry>, stays: Entry -> bool, goes: Entry -> bool)
    requires SiftedBetween(r, s, stays, goes)
    ensures forall x :: x in r ==> x in s
    ensures r == [] || r[0] in s
  {
    forall x | x in r ensures x in s {
      assert x in multiset(r) && x in multiset(s);
    }
  }

  lemma RecentIsForgotten(es: seq<Entry>, e: TurnEvent, es': seq<Entry>, last: int)
    requires TurnStep(es, e, es') && e.Turn? && StampedSince(es, last) && e.to <= last + REQUEST_TIMEOUT
    ensures es' == e.asked && |es'| <= MAX_BLOCKS_PER_REQUEST && StampedSince(es', e.from)
  {
    var kept := es'[..|es'| - |e.asked|];
    forall x | x in es ensures x !in kept {
      var k :| 0 <= k < |es| && es[k] == x;
    }
    assert kept == [] by {
      KeptWerePending(kept, es, KeptUntil(e.to), ExpiredFrom(e.from));
    }
  }

  /** What is asked for over the run. */
  function Asked(steps: seq<TurnTransition>): seq<Block> {
    if steps == [] then []
    else (if steps[0].event.Turn? then Blocks(steps[0].event.asked) else []) + Asked(steps[1..])
  }

  /** Over brisk turns a window holds only what its last turn asked for: every earlier
      request was given up, answered or not. */
  lemma {:induction false} BriskTurnsForget(es: seq<Entry>, steps: seq<TurnTransition>, es': seq<Entry>, last: int)
    requires TurnsLead(es, steps, es') && StampedSince(es, last) && Brisk(steps, last)
    ensures forall k :: 0 <= k < |steps| && steps[k].event.Turn? ==>
      steps[k].after == steps[k].event.asked && |steps[k].after| <= MAX_BLOCKS_PER_REQUEST
    decreases |steps|
  {
    hide TurnStep, Answered, Quota;
    if steps != [] {
      var e, mid := steps[0].event, steps[0].after;
      var next := if e.Turn? then e.from else last;
      if e.Turn? {
        RecentIsForgotten(es, e, mid, last);
      } else {
        AnsweredSince(es, e, mid, last);
      }
      BriskTurnsForget(mid, steps[1..], es', next);
      forall k | 0 <= k < |steps| && steps[k].event.Turn?
        ensures steps[k].after == steps[k].event.asked && |steps[k].after| <= MAX_BLOCKS_PER_REQUEST
      {
        if k > 0 {
          assert steps[k] == steps[1..][k - 1];
        }
      }
    }
  }

  lemma AnsweredSince(es: seq<Entry>, e: TurnEvent, es': seq<Entry>, last: int)
    requires TurnStep(es, e, es') && e.Settled? && StampedSince(es, last)
    ensures StampedSince(es', last)
  {
    if e.block in Blocks(es) {
      SwapRemoveSubset(es, IndexOf(Blocks(es), e.block));
      forall k | 0 <= k < |es'| ensures es'[k].time >= last {
        assert es'[k] in es;
      }
    }
  }

  ghost function Flat(batches: seq<seq<Block>>): seq<Block> {
    if batches == [] then [] else batches[0] + Flat(batches[1..])
  }

  /** The requests that are sent and never answered are not bounded by the size of the window:
      any number of batches can be asked for, turn by turn, while the window never holds more
      than the last of them. */
  lemma {:induction false} UnansweredUnbounded(es: seq<Entry>, batches: seq<seq<Block>>, now: int, interval: nat)
    returns (steps: seq<TurnTransition>, es': seq<Entry>)
    requires forall k :: 0 <= k < |batches| ==> |batches[k]| == MAX_BLOCKS_PER_REQUEST
    requires StampedSince(es, now - interval) && interval <= REQUEST_TIMEOUT && |es| <= MAX_BLOCKS_PER_REQUEST
    ensures TurnsLead(es, steps, es') && SettledCount(steps) == 0 && |steps| == |batches|
    ensures Asked(steps) == Flat(batches) && |es'| <= MAX_BLOCKS_PER_REQUEST && Brisk(steps, now - interval)
    decreases |batches|
  {
    if batches == [] {
      steps, es' := [], es;
    } else {
      var asked := At(batches[0], now);
      forall x | x in es ensures Expires(x, now) {
        var k :| 0 <= k < |es| && es[k] == x;
      }
      FullTurn(es, [], now, batches[0]);
      assert [] + asked == asked;
      steps, es' := UnansweredUnbounded(asked, batches[1..], now + interval, interval);
      var first := TurnTransition(Turn(now, now, asked), asked);
      assert ([first] + steps)[1..] == steps;
      steps := [first] + steps;
    }
  }
}
