/** A peer's request window over values: the blocks it has been asked for and, in
    endgame mode, the blocks it may still be asked for. */
module Window {
  import opened Prelude
  import opened Engine

  /** How long a request is given, in the clock's unit (milliseconds). */
  const REQUEST_TIMEOUT: int := 5000

  const MAX_BLOCKS_IN_FLIGHT: nat := 10
  const MAX_BLOCKS_PER_REQUEST: nat := 5

  /** How many blocks are asked for while that many requests are pending: five if they fit. */
  function Quota(pending: nat): nat {
    if MAX_BLOCKS_IN_FLIGHT >= MAX_BLOCKS_PER_REQUEST + pending then MAX_BLOCKS_PER_REQUEST else 0
  }

  datatype Entry = Entry(block: Block, time: int)

  datatype Window = Window(remaining: seq<Block>, pending: seq<Entry>)

  function Blocks(es: seq<Entry>): (bs: seq<Block>)
    ensures |bs| == |es| && forall k :: 0 <= k < |es| ==> bs[k] == es[k].block
  {
    seq(|es|, k requires 0 <= k < |es| => es[k].block)
  }

  /** The comparison the client makes before it gives up on a pending request. */
  predicate Expires(e: Entry, now: int) {
    e.time + REQUEST_TIMEOUT >= now
  }

  /** The comparison is the reverse of a timeout: a request just made is given up on, and one
      that is older than the timeout never is. */
  lemma ExpiresIffNotTimedOut(e: Entry, now: int)
    ensures Expires(e, now) <==> !(now - e.time > REQUEST_TIMEOUT)
    ensures Expires(Entry(e.block, now), now)
  {
  }

  /** The requests that are given up on at a time from then on, and those that may be kept
      until a time: a loop reads the clock anew for each request. */
  ghost function ExpiredFrom(from: int): Entry -> bool {
    (e: Entry) => Expires(e, from)
  }

  ghost function KeptUntil(to: int): Entry -> bool {
    (e: Entry) => !Expires(e, to)
  }

  lemma ExpiresBetween(e: Entry, from: int, now: int, to: int)
    requires from <= now <= to
    ensures if Expires(e, now) then ExpiredFrom(from)(e) else KeptUntil(to)(e)
  {
  }

  /** r is what a removal loop leaves of s: what is left may stay, what is gone may go. */
  ghost predicate SiftedBetween<T(!new)>(r: seq<T>, s: seq<T>, stays: T -> bool, goes: T -> bool) {
    && multiset(r) <= multiset(s)
    && (forall x :: x in r ==> stays(x))
    && (forall x :: multiset(r)[x] < multiset(s)[x] ==> goes(x))
  }

  /** If nothing that may stay may also go, that is exactly the entries that may stay. */
  lemma SiftedBetweenIsExact<T(!new)>(r: seq<T>, s: seq<T>, keep: T -> bool)
    ensures SiftedBetween(r, s, keep, x => !keep(x)) <==> Sifted(r, s, keep)
  {
    if SiftedBetween(r, s, keep, x => !keep(x)) {
      forall x ensures multiset(r)[x] == if keep(x) then multiset(s)[x] else 0 {
        assert x in r <==> multiset(r)[x] > 0;
        assert multiset(r)[x] <= multiset(s)[x];
      }
    }
    if Sifted(r, s, keep) {
      forall x ensures multiset(r)[x] <= multiset(s)[x] {
        assert multiset(r)[x] == if keep(x) then multiset(s)[x] else 0;
      }
      forall x | x in r ensures keep(x) {
        assert multiset(r)[x] > 0;
      }
    }
  }

  /** The entries from n on were stamped between the two times. */
  ghost predicate Stamped(es: seq<Entry>, n: nat, from: int, to: int) {
    forall k :: n <= k < |es| ==> from <= es[k].time <= to
  }

  /** Which blocks the client has received. */
  ghost function Got(cfg: Config, s: State): Block -> bool {
    (b: Block) => b.piece < |s.completed| && IsReceived(cfg, s, b.piece, b.offset)
  }

  /** How often a block occurs in the window, asked for or still to be asked for. */
  ghost function Holds(w: Window, x: Block): nat {
    multiset(w.remaining)[x] + multiset(Blocks(w.pending))[x]
  }

  /** One endgame refresh: received blocks leave the window, the pending ones among them
      being cancelled; unreceived expired ones go back to the remaining blocks.  Whatever
      expires, nothing unreceived is lost. */
  ghost predicate Refreshed(w: Window, received: Block -> bool, stays: Entry -> bool, goes: Entry -> bool,
                            w': Window, cancelled: seq<Block>) {
    && (forall x :: Holds(w', x) == if received(x) then 0 else Holds(w, x))
    && SiftedBetween(w'.pending, w.pending, (e: Entry) => !received(e.block) && stays(e),
                     (e: Entry) => received(e.block) || goes(e))
    && Sifted(cancelled, Blocks(w.pending), received)
  }

  /** One endgame load: up to n remaining blocks become the newest pending ones, stamped with
      times between the two. */
  ghost predicate Loaded(w: Window, n: nat, from: int, to: int, w': Window) {
    var m := if n <= |w.remaining| then n else |w.remaining|;
    && |w'.pending| == |w.pending| + m && w'.pending[..|w.pending|] == w.pending
    && (forall k :: |w.pending| <= k < |w'.pending| ==> from <= w'.pending[k].time <= to)
    && (forall x :: Holds(w', x) == Holds(w, x))
  }

  /** n blocks are taken off the front one after the other, each time the last one takes its place:
      first the front one goes, and then they go from the end. */
  ghost predicate TakenFromFront(before: seq<Block>, n: nat, rest: seq<Block>, taken: seq<Block>) {
    && |taken| == n <= |before| && |rest| == |before| - n
    && (forall j :: 0 <= j < n ==> taken[j] == if j == 0 then before[0] else before[|before| - j])
    && (forall k :: 0 <= k < |rest| ==> rest[k] == if k == 0 && n > 0 then before[|before| - n] else before[k])
  }

  lemma NothingTaken(rs: seq<Block>)
    ensures TakenFromFront(rs, 0, rs, [])
  {
  }

  lemma TakeOneMore(before: seq<Block>, n: nat, rest: seq<Block>, taken: seq<Block>)
    requires TakenFromFront(before, n, rest, taken) && rest != []
    ensures TakenFromFront(before, n + 1, SwapRemove(rest, 0), taken + [rest[0]])
  {
  }

  /** A block arrived from this peer: the first pending request for exactly that block is settled. */
  ghost predicate Answered(w: Window, block: Block, w': Window) {
    if block in Blocks(w.pending)
    then w' == w.(pending := SwapRemove(w.pending, IndexOf(Blocks(w.pending), block)))
    else w' == w
  }

  lemma AnsweredHolds(w: Window, block: Block, w': Window, x: Block)
    requires Answered(w, block, w')
    ensures Holds(w', x) == Holds(w, x) - (if x == block && block in Blocks(w.pending) then 1 else 0)
  {
    if block in Blocks(w.pending) {
      BlocksSwapRemove(w.pending, IndexOf(Blocks(w.pending), block));
    }
  }

  lemma BlocksSwapRemove(es: seq<Entry>, i: nat)
    requires i < |es|
    ensures multiset(Blocks(es)) == multiset(Blocks(SwapRemove(es, i))) + multiset{es[i].block}
  {
    assert Blocks(SwapRemove(es, i)) == SwapRemove(Blocks(es), i);
    SwapRemoveMultiset(Blocks(es), i);
  }

  // ----- the removal loops -------------------------------------------------

  /** What a swap-remove loop establishes: the entries left are kept ones, the others gone. */
  lemma SiftedBySplit<T(!new)>(r: seq<T>, s: seq<T>, gone: multiset<T>, keep: T -> bool)
    requires multiset(s) == multiset(r) + gone
    requires forall x :: x in r ==> keep(x)
    requires forall x :: x in gone ==> !keep(x)
    ensures Sifted(r, s, keep)
  {
    forall x ensures multiset(r)[x] == if keep(x) then multiset(s)[x] else 0 {
      assert x in multiset(r) <==> x in r;
    }
  }

  lemma SiftedBetweenBySplit<T(!new)>(r: seq<T>, s: seq<T>, gone: multiset<T>, stays: T -> bool, goes: T -> bool)
    requires multiset(s) == multiset(r) + gone
    requires forall x :: x in r ==> stays(x)
    requires forall x :: x in gone ==> goes(x)
    ensures SiftedBetween(r, s, stays, goes)
  {
    forall x | multiset(r)[x] < multiset(s)[x] ensures goes(x) {
      assert gone[x] > 0;
    }
  }

  lemma SiftedSubset<T(!new)>(r: seq<T>, s: seq<T>, keep: T -> bool)
    requires Sifted(r, s, keep)
    ensures forall x :: x in r <==> x in s && keep(x)
  {
    forall x ensures x in r <==> x in s && keep(x) {
      assert x in r <==> multiset(r)[x] > 0;
      assert x in s <==> multiset(s)[x] > 0;
    }
  }

  /** The pending entries, split into those still pending, those moved back to the
      remaining blocks, and those dropped because their block was received. */
  ghost predicate Split(es: seq<Entry>, pending: seq<Entry>, moved: seq<Entry>, dropped: seq<Entry>) {
    && multiset(es) == multiset(pending) + multiset(moved) + multiset(dropped)
    && multiset(Blocks(es)) == multiset(Blocks(pending)) + multiset(Blocks(moved)) + multiset(Blocks(dropped))
  }

  lemma SplitStep(es: seq<Entry>, pending: seq<Entry>, moved: seq<Entry>, dropped: seq<Entry>, i: nat)
    requires Split(es, pending, moved, dropped) && i < |pending|
    ensures Split(es, SwapRemove(pending, i), moved + [pending[i]], dropped)
    ensures Split(es, SwapRemove(pending, i), moved, dropped + [pending[i]])
  {
    SwapRemoveMultiset(pending, i);
    BlocksSwapRemove(pending, i);
    BlocksSnoc(moved, pending[i]);
    BlocksSnoc(dropped, pending[i]);
  }

  lemma BlocksSnoc(es: seq<Entry>, e: Entry)
    ensures Blocks(es + [e]) == Blocks(es) + [e.block]
  {
  }

  /** The two loops of an endgame refresh, put together. */
  lemma RefreshDone(w: Window, received: Block -> bool, stays: Entry -> bool, goes: Entry -> bool,
                    kept: seq<Block>, w': Window, moved: seq<Entry>, dropped: seq<Entry>)
    requires Sifted(kept, w.remaining, (b: Block) => !received(b))
    requires Split(w.pending, w'.pending, moved, dropped) && w'.remaining == kept + Blocks(moved)
    requires forall e :: e in w'.pending ==> !received(e.block) && stays(e)
    requires forall e :: e in moved ==> !received(e.block) && goes(e)
    requires forall e :: e in dropped ==> received(e.block)
    ensures Refreshed(w, received, stays, goes, w', Blocks(dropped))
  {
    forall x: Block
      ensures Holds(w', x) == if received(x) then 0 else Holds(w, x)
      ensures multiset(Blocks(dropped))[x] == if received(x) then multiset(Blocks(w.pending))[x] else 0
    {
      assert multiset(w'.remaining)[x] == multiset(kept)[x] + multiset(Blocks(moved))[x];
      BlockCount(w'.pending, x);
      BlockCount(moved, x);
      BlockCount(dropped, x);
    }
    SiftedBetweenBySplit(w'.pending, w.pending, multiset(moved) + multiset(dropped),
                         (e: Entry) => !received(e.block) && stays(e), (e: Entry) => received(e.block) || goes(e));
  }

  lemma BlockCount(es: seq<Entry>, x: Block)
    ensures multiset(Blocks(es))[x] > 0 ==> exists e :: e in es && e.block == x
  {
    if multiset(Blocks(es))[x] > 0 {
      var k := IndexOf(Blocks(es), x);
      assert es[k] in es;
    }
  }
}
