/** Whether the list of pieces is by rarity.  The search that is to keep it sorted when one
    more peer has a piece compares with the wrong counter: when that does no harm, when it
    does, and runs in which it does. */
module Rarity {
  import opened Prelude
  import opened Layout
  import opened Pieces
  import opened Engine
  import opened Download
  import opened Runs
  import opened Selection

  // ----- one swap ----------------------------------------------------------

  /** Piece stands at p, after every other piece with its counter. */
  ghost predicate LastOfItsKind(s: seq<nat>, avail: seq<nat>, piece: nat, p: nat)
    requires piece < |avail| && InRange(s, |avail|)
  {
    p < |s| && s[p] == piece && forall k :: p < k < |s| ==> avail[s[k]] > avail[piece]
  }

  /** Piece stands at p, and the counters of all before it are 0. */
  ghost predicate AfterZeros(s: seq<nat>, avail: seq<nat>, piece: nat, p: nat)
    requires piece < |avail| && InRange(s, |avail|)
  {
    p < |s| && s[p] == piece && forall k :: 0 <= k < p ==> avail[s[k]] == 0
  }

  /** The piece may stay where it is: its counter grows, or wraps to 0, and the list is in order. */
  ghost predicate HarmlessUnmoved(s: seq<nat>, avail: seq<uint16>, piece: nat)
    requires piece < |avail| && InRange(s, |avail|)
  {
    if avail[piece] + 1 < TWO_TO_16
    then exists p: nat :: LastOfItsKind(s, avail, piece, p)
    else exists p: nat :: AfterZeros(s, avail, piece, p)
  }

  ghost predicate IsLeast(avail: seq<nat>, v: nat) {
    forall q :: 0 <= q < |avail| ==> v <= avail[q]
  }

  /** The search may end after the entries with counter v: that is the piece's own counter, or
      is off in a way that does not matter.  A counter that wraps may only follow zeros. */
  ghost predicate HarmlessAt(s: seq<nat>, avail: seq<uint16>, piece: nat, v: nat)
    requires piece < |avail| && InRange(s, |avail|)
  {
    var a := avail[piece];
    if a + 1 < TWO_TO_16
    then v == a || (HarmlessUnmoved(s, avail, piece) && (v == a + 1 || (v < a && IsLeast(avail, v))))
    else exists p: nat :: AfterZeros(s, avail, piece, p) && (v == a ==> p == |s| - 1)
  }

  /** The search may end at that place. */
  ghost predicate LeavesOrder(s: seq<nat>, avail: seq<uint16>, piece: nat, bound: nat)
    requires piece < |avail| && InRange(s, |avail|) && bound <= |s|
  {
    if bound == 0 then HarmlessUnmoved(s, avail, piece) else HarmlessAt(s, avail, piece, avail[s[bound - 1]])
  }

  /** In an ordered list the search ends after all entries of at most w. */
  lemma BoundarySplits(s: seq<nat>, avail: seq<nat>, w: nat, bound: nat)
    requires Ordered(s, avail) && Boundary(s, avail, w, bound)
    ensures forall k :: 0 <= k < |s| ==> (avail[s[k]] <= w <==> k < bound)
  {
  }

  /** The walk meets the piece if and only if its counter is at most the one searched for. */
  lemma WalkFindsIff(s: seq<nat>, avail: seq<nat>, piece: nat, w: nat, bound: nat)
    requires IsPermutation(s, |avail|) && Ordered(s, avail) && piece < |avail|
    requires Boundary(s, avail, w, bound) && bound > 0
    ensures s[WalkBack(s, piece, bound - 1)] == piece <==> avail[piece] <= w
  {
    PermutationIndices(s, |avail|);
    BoundarySplits(s, avail, w, bound);
    var p := IndexOf(s, piece);
    assert avail[s[p]] == avail[piece];
  }

  /** The entries and counters after the swap of places i and j and the growth of piece's counter. */
  ghost predicate Swapped(s: seq<nat>, s': seq<nat>, i: nat, j: nat) {
    i < |s| && j < |s| && s' == s[i := s[j]][j := s[i]]
  }

  /** The walk meets the piece at p: it goes to the place before the boundary. */
  lemma FoundKeepsOrderIff(s: seq<nat>, s': seq<nat>, avail: seq<nat>, p: nat, last: nat)
    requires Ordered(s, avail) && NoDup(s) && p <= last < |s| && Swapped(s, s', p, last)
    requires forall k :: last < k < |s| ==> avail[s[k]] > avail[s[last]]
    ensures Ordered(s', avail[s[p] := avail[s[p]] + 1]) <==>
      avail[s[last]] == avail[s[p]] || (avail[s[last]] == avail[s[p]] + 1 && LastOfItsKind(s, avail, s[p], p))
  {
    hide NoDup;
    var piece, a, w := s[p], avail[s[p]], avail[s[last]];
    var avail' := avail[piece := a + 1];
    forall k | 0 <= k < |s'|
      ensures avail'[s'[k]] == if k == last then a + 1 else if k == p then w else avail[s[k]]
    {
      NoDupAt(s, k, p);
      NoDupAt(s, last, p);
    }
    if Ordered(s', avail') && w != a {
      assert avail'[s'[p]] <= avail'[s'[last]];
      forall k | p < k < |s| ensures avail[s[k]] > a {
        if k < last {
          assert avail'[s'[p]] <= avail'[s'[k]];
        }
      }
    }
  }

  /** The walk does not meet it: the front and the place before the boundary change places. */
  lemma MissedKeepsOrderIff(s: seq<nat>, s': seq<nat>, avail: seq<nat>, p: nat, last: nat)
    requires Ordered(s, avail) && NoDup(s) && last < p < |s| && Swapped(s, s', 0, last)
    requires avail[s[last]] < avail[s[p]]
    ensures Ordered(s', avail[s[p] := avail[s[p]] + 1]) <==>
      avail[s[last]] == avail[s[0]] && LastOfItsKind(s, avail, s[p], p)
  {
    hide NoDup;
    var piece, a, w := s[p], avail[s[p]], avail[s[last]];
    var avail' := avail[piece := a + 1];
    forall k | 0 <= k < |s'|
      ensures avail'[s'[k]]
           == if k == p then a + 1 else if k == last then avail[s[0]] else if k == 0 then w else avail[s[k]]
    {
      NoDupAt(s, k, p);
      NoDupAt(s, last, p);
      NoDupAt(s, 0, p);
    }
    if Ordered(s', avail') {
      if last > 0 {
        assert avail'[s'[0]] <= avail'[s'[last]];
      }
      forall k | p < k < |s| ensures avail[s[k]] > a {
        assert avail'[s'[p]] <= avail'[s'[k]];
      }
    }
  }

  /** The counter wraps, and the walk meets the piece at p. */
  lemma FoundWrapsIff(s: seq<nat>, s': seq<nat>, avail: seq<uint16>, p: nat, last: nat)
    requires Ordered(s, avail) && NoDup(s) && p <= last == |s| - 1 && Swapped(s, s', p, last)
    requires avail[s[p]] == TWO_TO_16 - 1
    ensures Ordered(s', avail[s[p] := 0]) <==> AfterZeros(s, avail, s[p], p) && p == last
  {
    hide NoDup;
    var piece := s[p];
    var avail' := avail[piece := 0];
    assert avail[s[last]] == TWO_TO_16 - 1;
    forall k | 0 <= k < |s'|
      ensures avail'[s'[k]] == if k == last then 0 else if k == p then avail[s[last]] else avail[s[k]]
    {
      NoDupAt(s, k, p);
      NoDupAt(s, last, p);
    }
    if Ordered(s', avail') {
      forall k | 0 <= k < last ensures avail'[s'[k]] == 0 {
        assert avail'[s'[k]] <= avail'[s'[last]];
      }
    }
  }

  /** The counter wraps, and the walk does not meet the piece. */
  lemma MissedWrapsIff(s: seq<nat>, s': seq<nat>, avail: seq<uint16>, p: nat, last: nat)
    requires Ordered(s, avail) && NoDup(s) && last < p < |s| && Swapped(s, s', 0, last)
    requires avail[s[p]] == TWO_TO_16 - 1
    ensures Ordered(s', avail[s[p] := 0]) <==> AfterZeros(s, avail, s[p], p)
  {
    hide NoDup;
    var piece := s[p];
    var avail' := avail[piece := 0];
    forall k | 0 <= k < |s'|
      ensures avail'[s'[k]]
           == if k == p then 0 else if k == last then avail[s[0]] else if k == 0 then avail[s[last]] else avail[s[k]]
    {
      NoDupAt(s, k, p);
      NoDupAt(s, last, p);
      NoDupAt(s, 0, p);
    }
    if Ordered(s', avail') {
      forall k | 0 <= k < p ensures avail[s[k]] == 0 {
        assert avail'[s'[k]] <= avail'[s'[p]];
        assert avail'[s'[0]] <= avail'[s'[p]];
        assert avail'[s'[last]] <= avail'[s'[p]];
      }
    }
  }

  /** The list stays as it is. */
  lemma UnmovedKeepsOrderIff(s: seq<nat>, avail: seq<uint16>, p: nat)
    requires Ordered(s, avail) && NoDup(s) && p < |s|
    ensures Ordered(s, avail[s[p] := (avail[s[p]] + 1) % TWO_TO_16]) <==>
      if avail[s[p]] + 1 < TWO_TO_16 then LastOfItsKind(s, avail, s[p], p) else AfterZeros(s, avail, s[p], p)
  {
    hide NoDup;
    var a := avail[s[p]];
    var avail' := avail[s[p] := (a + 1) % TWO_TO_16];
    forall k | 0 <= k < |s| ensures avail'[s[k]] == if k == p then (a + 1) % TWO_TO_16 else avail[s[k]] {
      NoDupAt(s, k, p);
    }
    if Ordered(s, avail') {
      assert forall k :: p < k < |s| ==> avail'[s[p]] <= avail'[s[k]];
      assert forall k :: 0 <= k < p ==> avail'[s[k]] <= avail'[s[p]];
    }
  }

  /** The exact condition for a search that compares with any counter: one more peer has the
      piece, and the list, ordered before, is ordered by the new 16-bit counters if and only if
      the place where the search ends does no harm. */
  lemma SearchKeepsOrderIff(s: seq<nat>, avail: seq<uint16>, piece: nat, w: nat, bound: nat)
    requires IsPermutation(s, |avail|) && Ordered(s, avail) && piece < |avail| && Boundary(s, avail, w, bound)
    ensures InRange(s, |avail|) && InRange(SwapUp(s, piece, bound), |avail|)
    ensures Ordered(SwapUp(s, piece, bound), avail[piece := (avail[piece] + 1) % TWO_TO_16])
       <==> LeavesOrder(s, avail, piece, bound)
  {
    hide NoDup, IsPermutation, LastOfItsKind, AfterZeros, Ordered, Swapped;
    PermutationIndices(s, |avail|);
    PermutationInjective(s, |avail|);
    var p := IndexOf(s, piece);
    if bound == 0 {
      PlaceIsUnique(s, avail, piece, p);
      UnmovedKeepsOrderIff(s, avail, p);
    } else {
      SearchEnds(s, avail, piece, w, bound);
      LeastIsFirst(s, avail);
      SwapIs(s, piece, bound);
      if avail[piece] <= avail[s[bound - 1]] {
        FoundIsLeft(s, SwapUp(s, piece, bound), avail, p, bound - 1);
      } else {
        MissedIsLeft(s, SwapUp(s, piece, bound), avail, p, bound - 1);
      }
    }
  }

  lemma FoundIsLeft(s: seq<nat>, s': seq<nat>, avail: seq<uint16>, p: nat, last: nat)
    requires InRange(s, |avail|) && Ordered(s, avail) && NoDup(s) && p <= last < |s| && Swapped(s, s', p, last)
    requires forall k :: last < k < |s| ==> avail[s[k]] > avail[s[last]]
    ensures InRange(s', |avail|)
    ensures Ordered(s', avail[s[p] := (avail[s[p]] + 1) % TWO_TO_16]) <==> HarmlessAt(s, avail, s[p], avail[s[last]])
  {
    hide NoDup, LastOfItsKind, AfterZeros;
    PlaceIsUnique(s, avail, s[p], p);
    assert avail[s[p]] <= avail[s[last]];
    var next: int := if last + 1 < |s| then avail[s[last + 1]] else TWO_TO_16;
    assert next > avail[s[last]];
    hide Ordered;
    if avail[s[p]] == TWO_TO_16 - 1 {
      FoundWrapsIff(s, s', avail, p, last);
    } else {
      FoundKeepsOrderIff(s, s', avail, p, last);
    }
  }

  lemma MissedIsLeft(s: seq<nat>, s': seq<nat>, avail: seq<uint16>, p: nat, last: nat)
    requires InRange(s, |avail|) && Ordered(s, avail) && NoDup(s) && last < p < |s| && Swapped(s, s', 0, last)
    requires avail[s[last]] < avail[s[p]] && forall q :: 0 <= q < |avail| ==> avail[s[0]] <= avail[q]
    ensures InRange(s', |avail|)
    ensures Ordered(s', avail[s[p] := (avail[s[p]] + 1) % TWO_TO_16]) <==> HarmlessAt(s, avail, s[p], avail[s[last]])
  {
    hide NoDup, LastOfItsKind, AfterZeros, Ordered;
    PlaceIsUnique(s, avail, s[p], p);
    if avail[s[p]] == TWO_TO_16 - 1 {
      MissedWrapsIff(s, s', avail, p, last);
    } else {
      MissedKeepsOrderIff(s, s', avail, p, last);
    }
  }

  lemma SwapIs(s: seq<nat>, piece: nat, bound: nat)
    requires 0 < bound <= |s|
    ensures Swapped(s, SwapUp(s, piece, bound), WalkBack(s, piece, bound - 1), bound - 1)
  {
  }

  /** What the source's search compares with is, while the counter is the number of a piece,
      the counter of that piece: it decides alone. */
  lemma HaveKeepsOrderIff(s: seq<nat>, s': seq<nat>, avail: seq<uint16>, piece: nat)
    requires IsPermutation(s, |avail|) && Ordered(s, avail) && piece < |avail| && avail[piece] < |avail|
    requires Reordered(s, s', avail, piece)
    ensures InRange(s', |avail|)
    ensures Ordered(s', avail[piece := (avail[piece] + 1) % TWO_TO_16])
       <==> HarmlessAt(s, avail, piece, avail[avail[piece]])
  {
    hide IsPermutation, WalkBack, HarmlessAt, HarmlessUnmoved, Ordered, Boundary, SwapUp;
    PermutationIndices(s, |avail|);
    var w: nat, bound: nat :| ReorderedAt(s, s', avail, piece, w, bound);
    SearchKeepsOrderIff(s, avail, piece, w, bound);
    EndsAtSearched(s, avail, piece, w, bound);
  }

  /** Where the search and the walk end in an ordered list. */
  lemma SearchEnds(s: seq<nat>, avail: seq<nat>, piece: nat, w: nat, bound: nat)
    requires IsPermutation(s, |avail|) && Ordered(s, avail) && NoDup(s) && piece < |avail|
    requires Boundary(s, avail, w, bound) && bound > 0 && piece in s
    ensures forall k :: bound <= k < |s| ==> avail[s[k]] > avail[s[bound - 1]]
    ensures var p, walk := IndexOf(s, piece), WalkBack(s, piece, bound - 1);
      if avail[piece] <= avail[s[bound - 1]] then p < bound && walk == p else p >= bound && walk == 0
  {
    hide IsPermutation, NoDup;
    PermutationIndices(s, |avail|);
    BoundarySplits(s, avail, w, bound);
    var p := IndexOf(s, piece);
    assert avail[s[p]] == avail[piece];
    WalkFindsIff(s, avail, piece, w, bound);
    NoDupAt(s, WalkBack(s, piece, bound - 1), p);
  }

  lemma EndsAtSearched(s: seq<nat>, avail: seq<nat>, piece: nat, w: nat, bound: nat)
    requires IsPermutation(s, |avail|) && Ordered(s, avail) && piece < |avail| && avail[piece] < |avail|
    requires InRange(s, |avail|) && SearchedFor(avail, piece, w) && Boundary(s, avail, w, bound)
    ensures bound > 0 && avail[s[bound - 1]] == avail[avail[piece]]
  {
    hide IsPermutation;
    PermutationIndices(s, |avail|);
    BoundarySplits(s, avail, w, bound);
    var q := IndexOf(s, avail[piece]);
    assert avail[s[q]] == w && q < bound;
  }

  lemma PlaceIsUnique(s: seq<nat>, avail: seq<nat>, piece: nat, p: nat)
    requires piece < |avail| && InRange(s, |avail|) && NoDup(s) && p < |s| && s[p] == piece
    ensures (exists r: nat :: LastOfItsKind(s, avail, piece, r)) <==> LastOfItsKind(s, avail, piece, p)
    ensures forall r: nat :: AfterZeros(s, avail, piece, r) ==> r == p
  {
  }

  lemma LeastIsFirst(s: seq<nat>, avail: seq<nat>)
    requires IsPermutation(s, |avail|) && Ordered(s, avail) && s != []
    ensures forall q :: 0 <= q < |avail| ==> avail[s[0]] <= avail[q]
  {
    PermutationIndices(s, |avail|);
    forall q | 0 <= q < |avail| ensures avail[s[0]] <= avail[q] {
      var k := IndexOf(s, q);
    }
  }

  // ----- steps and runs ----------------------------------------------------

  /** The message does no harm to the order, wherever the search may end. */
  ghost predicate HarmlessHave(s: State, piece: nat) {
    s.isSorted ==> piece < |s.avail| && InRange(s.sorted, |s.avail|) && EveryEndHarmless(s.sorted, s.avail, piece)
  }

  ghost predicate EveryEndHarmless(s: seq<nat>, avail: seq<uint16>, piece: nat)
    requires piece < |avail| && InRange(s, |avail|)
  {
    forall w: nat, bound: nat :: SearchedFor(avail, piece, w) && Boundary(s, avail, w, bound)
      ==> LeavesOrder(s, avail, piece, bound)
  }

  /** The condition is exact: every outcome of the message leaves the list in order. */
  lemma HarmlessHaveIff(cfg: Config, s: State, piece: nat)
    requires cfg.Ok() && Inv(cfg, s) && OrderHolds(s) && piece < cfg.PiecesCnt()
    ensures HarmlessHave(s, piece) <==> forall s' :: CountsOneMore(s, piece, s') ==> OrderHolds(s')
  {
    StateSizes(cfg, s);
    ListIsPermutation(cfg, s);
    hide Inv, IsPermutation, Ordered, Boundary, LeavesOrder, SwapUp;
    var avail' := s.avail[piece := (s.avail[piece] + 1) % TWO_TO_16];
    if HarmlessHave(s, piece) {
      forall s' | CountsOneMore(s, piece, s') ensures OrderHolds(s') {
        HaveKeepsOrder(cfg, s, piece, s');
      }
    }
    if s.isSorted && forall s' :: CountsOneMore(s, piece, s') ==> OrderHolds(s') {
      forall w: nat, bound: nat | SearchedFor(s.avail, piece, w) && Boundary(s.sorted, s.avail, w, bound)
        ensures LeavesOrder(s.sorted, s.avail, piece, bound)
      {
        SearchKeepsOrderIff(s.sorted, s.avail, piece, w, bound);
        var s' := s.(avail := avail', sorted := SwapUp(s.sorted, piece, bound));
        assert ReorderedAt(s.sorted, s'.sorted, s.avail, piece, w, bound);
        assert CountsOneMore(s, piece, s');
      }
    }
  }

  /** While the counter is the number of a piece, that is one test of the counters and the list. */
  lemma EveryEndHarmlessIff(s: seq<nat>, avail: seq<uint16>, piece: nat)
    requires IsPermutation(s, |avail|) && Ordered(s, avail) && piece < |avail| && avail[piece] < |avail|
    ensures InRange(s, |avail|)
    ensures EveryEndHarmless(s, avail, piece) <==> HarmlessAt(s, avail, piece, avail[avail[piece]])
  {
    hide IsPermutation, HarmlessAt, HarmlessUnmoved, Ordered;
    PermutationIndices(s, |avail|);
    var w := avail[avail[piece]];
    var bound := SomeBoundary(s, avail, w, |s|);
    assert SearchedFor(avail, piece, w);
    EndsAtSearched(s, avail, piece, w, bound);
    if HarmlessAt(s, avail, piece, w) {
      forall v: nat, b: nat | SearchedFor(avail, piece, v) && Boundary(s, avail, v, b)
        ensures LeavesOrder(s, avail, piece, b)
      {
        EndsAtSearched(s, avail, piece, v, b);
      }
    }
  }

  lemma {:induction false} SomeBoundary(s: seq<nat>, avail: seq<nat>, w: nat, n: nat) returns (bound: nat)
    requires InRange(s, |avail|) && n <= |s| && (n < |s| ==> avail[s[n]] > w)
    ensures Boundary(s, avail, w, bound)
  {
    if n > 0 && avail[s[n - 1]] > w {
      bound := SomeBoundary(s, avail, w, n - 1);
    } else {
      bound := n;
    }
  }

  lemma ListIsPermutation(cfg: Config, s: State)
    requires cfg.Ok() && Inv(cfg, s)
    ensures IsPermutation(s.sorted, cfg.PiecesCnt()) && InRange(s.sorted, |s.avail|)
  {
  }

  /** Only have messages can spoil the order. */
  lemma StepKeepsOrder(cfg: Config, s: State, e: Event, s': State)
    requires cfg.Ok() && Inv(cfg, s) && Step(cfg, s, e, s') && OrderHolds(s)
    requires e.PeerHas? ==> HarmlessHave(s, e.piece)
    ensures OrderHolds(s')
  {
    StateSizes(cfg, s);
    hide Inv, Ordered, HarmlessHave, OrderHolds, CanYield, AcceptBlock, CountPeer, CountsOneMore, TakesBlock;
    match e
    case PeerHas(piece) => HaveKeepsOrder(cfg, s, piece, s');
    case PeerJoined(bits) => JoinKeepsOrder(cfg, s, bits, 1);
    case PeerLeft(bits) => JoinKeepsOrder(cfg, s, bits, -1);
    case BlockArrived(piece, block, offset) => ArrivalKeepsOrder(cfg, s, piece, block, offset);
    case BlockAsked(bits, now, answer) => AskKeepsOrder(cfg, s, bits, now, s', answer);
  }

  lemma HaveKeepsOrder(cfg: Config, s: State, piece: nat, s': State)
    requires cfg.Ok() && Inv(cfg, s) && CountsOneMore(s, piece, s') && OrderHolds(s) && HarmlessHave(s, piece)
    ensures OrderHolds(s')
  {
    StateSizes(cfg, s);
    ListIsPermutation(cfg, s);
    hide Inv, IsPermutation, Ordered, Boundary, LeavesOrder, SwapUp;
    if s.isSorted {
      var w: nat, bound: nat :| ReorderedAt(s.sorted, s'.sorted, s.avail, piece, w, bound);
      SearchKeepsOrderIff(s.sorted, s.avail, piece, w, bound);
    }
  }

  lemma ArrivalKeepsOrder(cfg: Config, s: State, piece: nat, block: seq<byte>, offset: nat)
    requires cfg.Ok() && Inv(cfg, s) && OrderHolds(s)
    requires piece in s.requested ==> Arrives(s.requested[piece], offset, |block|)
    ensures OrderHolds(AcceptBlock(cfg, s, piece, block, offset))
  {
    hide RequestedOk, InTorrent, IsPermutation, Ordered, Splice, CeilDiv, ChunkLen;
  }

  lemma AskKeepsOrder(cfg: Config, s: State, bits: seq<bool>, now: Clock, s': State, answer: Option<Block>)
    requires cfg.Ok() && Inv(cfg, s) && OrderHolds(s) && Answers(cfg, s, bits, now, s', answer)
    ensures OrderHolds(s')
  {
    hide Inv, IsPermutation, Ordered, CanYield, NextBlock, FreshPiece, CeilDiv, ChunkLen, ListsOpenBlocks;
  }

  lemma JoinKeepsOrder(cfg: Config, s: State, bits: seq<bool>, sign: int)
    requires |s.avail| <= |bits| && OrderHolds(s)
    ensures OrderHolds(CountPeer(cfg, s, bits, sign))
  {
    if !AnyBit(bits, |s.avail|) {
      assert AdjustAvail(s.avail, bits, sign) == s.avail;
    }
  }

  ghost predicate HarmlessHaves(s: State, steps: seq<Transition>)
    decreases |steps|
  {
    steps == [] || ((steps[0].event.PeerHas? ==> HarmlessHave(s, steps[0].event.piece))
                    && HarmlessHaves(steps[0].after, steps[1..]))
  }

  /** From any state whose list is not believed to be sorted, or is -- the start, or the last
      sort -- the order holds over every run in which the have messages are harmless. */
  lemma {:induction false} RunKeepsOrder(cfg: Config, s: State, steps: seq<Transition>, t: State)
    requires cfg.Ok() && Inv(cfg, s) && Leads(cfg, s, steps, t) && OrderHolds(s) && HarmlessHaves(s, steps)
    ensures Inv(cfg, t) && OrderHolds(t)
    decreases |steps|
  {
    hide Inv, Step, OrderHolds, HarmlessHave;
    if steps != [] {
      var e, s' := steps[0].event, steps[0].after;
      StepKeepsInv(cfg, s, e, s');
      StepKeepsOrder(cfg, s, e, s');
      RunKeepsOrder(cfg, s', steps[1..], t);
    }
  }

  /** Rarest first over runs: after any run of harmless have messages since the list was last
      unsorted or sorted, the answer is from a rarest piece. */
  lemma RarestOverRuns(cfg: Config, s: State, steps: seq<Transition>, t: State,
                       bits: seq<bool>, now: Clock, t': State, block: Block)
    requires cfg.Ok() && Inv(cfg, s) && Leads(cfg, s, steps, t) && OrderHolds(s) && HarmlessHaves(s, steps)
    requires Inv(cfg, t) && |bits| >= cfg.PiecesCnt() && Answers(cfg, t, bits, now, t', Some(block))
    ensures block.piece < |t.avail| && NoneRarer(cfg, t, bits, now, block.piece)
  {
    RunKeepsOrder(cfg, s, steps, t);
    RarestFirst(cfg, t, bits, now, t', block);
  }

  // ----- when every answer is from a rarest piece --------------------------

  ghost function AllPieces(n: nat): (bits: seq<bool>)
    ensures |bits| == n && forall k :: 0 <= k < n ==> bits[k]
  {
    seq(n, _ => true)
  }

  /** Of any two pieces that could yield a block, the one further on in the list is not rarer. */
  ghost predicate YieldsInOrder(cfg: Config, s: State, now: Clock)
    requires cfg.Ok() && Inv(cfg, s)
  {
    forall i, j :: 0 <= i < j < |s.sorted| && MayYield(cfg, s, now, s.sorted[i]) && MayYield(cfg, s, now, s.sorted[j])
      ==> s.avail[s.sorted[i]] <= s.avail[s.sorted[j]]
  }

  /** The piece could yield a block to a peer that has it. */
  ghost predicate MayYield(cfg: Config, s: State, now: Clock, piece: nat)
    requires cfg.Ok()
  {
    CanYield(cfg, s, AllPieces(cfg.PiecesCnt()), now, piece)
  }

  ghost predicate AlwaysRarest(cfg: Config, s: State, now: Clock)
    requires cfg.Ok() && Inv(cfg, s)
  {
    forall bits, s', block ::
      |bits| >= cfg.PiecesCnt() && Answers(cfg, s, bits, now, s', Some(block)) ==>
        block.piece < |s.avail| && NoneRarer(cfg, s, bits, now, block.piece)
  }

  /** The exact condition, for a list that is believed to be sorted. */
  lemma AlwaysRarestIff(cfg: Config, s: State, now: Clock)
    requires cfg.Ok() && Inv(cfg, s) && s.isSorted && s.left != 0
    ensures AlwaysRarest(cfg, s, now) <==> YieldsInOrder(cfg, s, now)
  {
    hide Inv, Answers, CanYield, MayYield, NoneRarer;
    if YieldsInOrder(cfg, s, now) {
      forall bits, s', block | |bits| >= cfg.PiecesCnt() && Answers(cfg, s, bits, now, s', Some(block))
        ensures block.piece < |s.avail| && NoneRarer(cfg, s, bits, now, block.piece)
      {
        InOrderIsRarest(cfg, s, bits, now, s', block);
      }
    }
    if AlwaysRarest(cfg, s, now) {
      forall i, j | 0 <= i < j < |s.sorted|
        && MayYield(cfg, s, now, s.sorted[i]) && MayYield(cfg, s, now, s.sorted[j])
        ensures s.sorted[i] < |s.avail| && s.sorted[j] < |s.avail| && s.avail[s.sorted[i]] <= s.avail[s.sorted[j]]
      {
        FirstOfTwo(cfg, s, now, i, j);
      }
    }
  }

  lemma InOrderIsRarest(cfg: Config, s: State, bits: seq<bool>, now: Clock, s': State, block: Block)
    requires cfg.Ok() && Inv(cfg, s) && s.isSorted && |bits| >= cfg.PiecesCnt() && YieldsInOrder(cfg, s, now)
    requires Answers(cfg, s, bits, now, s', Some(block))
    ensures block.piece < |s.avail| && NoneRarer(cfg, s, bits, now, block.piece)
  {
    hide Inv, NextBlock, CeilDiv, IsPermutation, InRange, TakesBlock;
    hide CanYield, NoneRarer, YieldsInOrder, EntersEndgameIfDue;
    StateSizes(cfg, s);
    var k :| 0 <= k < |s.sorted| && s.sorted[k] == block.piece && CanYield(cfg, s, bits, now, block.piece)
          && forall j :: 0 <= j < k ==> !CanYield(cfg, s, bits, now, s.sorted[j]);
    FirstInOrder(cfg, s, bits, now, k);
  }

  lemma FirstInOrder(cfg: Config, s: State, bits: seq<bool>, now: Clock, k: nat)
    requires cfg.Ok() && Inv(cfg, s) && |bits| >= cfg.PiecesCnt() && YieldsInOrder(cfg, s, now)
    requires k < |s.sorted| && CanYield(cfg, s, bits, now, s.sorted[k])
    requires forall j :: 0 <= j < k ==> !CanYield(cfg, s, bits, now, s.sorted[j])
    ensures s.sorted[k] < |s.avail| && NoneRarer(cfg, s, bits, now, s.sorted[k])
  {
    hide Inv, IsPermutation, CanYield, MayYield, YieldsInOrder;
    StateSizes(cfg, s);
    ListCovers(cfg, s);
    YieldsMay(cfg, s, bits, now, s.sorted[k]);
    forall q: nat | q < |s.avail| && CanYield(cfg, s, bits, now, q)
      ensures s.avail[s.sorted[k]] <= s.avail[q]
    {
      YieldsMay(cfg, s, bits, now, q);
      InOrderAt(cfg, s, now, k, IndexOf(s.sorted, q));
    }
  }

  lemma ListCovers(cfg: Config, s: State)
    requires cfg.Ok() && Inv(cfg, s)
    ensures InRange(s.sorted, cfg.PiecesCnt()) && forall q: nat :: q < cfg.PiecesCnt() ==> q in s.sorted
  {
    PermutationIndices(s.sorted, cfg.PiecesCnt());
  }

  lemma YieldsMay(cfg: Config, s: State, bits: seq<bool>, now: Clock, piece: nat)
    requires cfg.Ok() && piece < cfg.PiecesCnt() && CanYield(cfg, s, bits, now, piece)
    ensures MayYield(cfg, s, now, piece)
  {
    hide NextBlock, FreshPiece, CeilDiv;
  }

  lemma InOrderAt(cfg: Config, s: State, now: Clock, i: nat, j: nat)
    requires cfg.Ok() && Inv(cfg, s) && YieldsInOrder(cfg, s, now) && i <= j < |s.sorted|
    requires MayYield(cfg, s, now, s.sorted[i]) && MayYield(cfg, s, now, s.sorted[j])
    ensures s.sorted[i] < |s.avail| && s.sorted[j] < |s.avail| && s.avail[s.sorted[i]] <= s.avail[s.sorted[j]]
  {
    hide Inv, MayYield, IsPermutation;
    StateSizes(cfg, s);
    ListCovers(cfg, s);
  }

  ghost function OnlyTwo(n: nat, p: nat, q: nat): (bits: seq<bool>)
    ensures |bits| == n && forall k :: 0 <= k < n ==> bits[k] == (k == p || k == q)
  {
    seq(n, k => k == p || k == q)
  }

  /** A peer that has just these two pieces is answered from the first of them. */
  lemma FirstOfTwo(cfg: Config, s: State, now: Clock, i: nat, j: nat)
    requires cfg.Ok() && Inv(cfg, s) && s.isSorted && s.left != 0 && i < j < |s.sorted|
    requires MayYield(cfg, s, now, s.sorted[i]) && MayYield(cfg, s, now, s.sorted[j])
    requires AlwaysRarest(cfg, s, now)
    ensures s.sorted[i] < |s.avail| && s.sorted[j] < |s.avail| && s.avail[s.sorted[i]] <= s.avail[s.sorted[j]]
  {
    hide RequestedOk, InTorrent, NextBlock, CeilDiv, ChunkLen, IsPermutation, NoDup;
    StateSizes(cfg, s);
    PermutationIndices(s.sorted, cfg.PiecesCnt());
    PermutationInjective(s.sorted, cfg.PiecesCnt());
    var p, q, bits := s.sorted[i], s.sorted[j], OnlyTwo(cfg.PiecesCnt(), s.sorted[i], s.sorted[j]);
    YieldTakes(cfg, s, bits, now, p);
    var s', block :| TakesBlock(cfg, s, p, now, s', block) && block.piece == p;
    forall k | 0 <= k < i ensures !CanYield(cfg, s, bits, now, s.sorted[k]) {
      NoDupAt(s.sorted, k, i);
      NoDupAt(s.sorted, k, j);
    }
    assert s.(sorted := s'.sorted, isSorted := true) == s;
    assert s.sorted[i] == block.piece;
    assert Answers(cfg, s, bits, now, s', Some(block));
    assert CanYield(cfg, s, bits, now, q);
  }

  lemma YieldTakes(cfg: Config, s: State, bits: seq<bool>, now: Clock, piece: nat)
    requires cfg.Ok() && Inv(cfg, s) && piece < cfg.PiecesCnt() && CanYield(cfg, s, bits, now, piece)
    ensures exists s', block :: TakesBlock(cfg, s, piece, now, s', block) && block.piece == piece
  {
    var p := Candidate(cfg, s, piece);
    PieceLenBounds(cfg, piece);
    FreshPieceYields(cfg.PieceLen(piece), now.read(piece), cfg.timeout);
    FreshPieceOk(cfg.PieceLen(piece));
    if piece in s.requested {
      RequestedPiece(cfg, s, piece);
    }
    hide CeilDiv, ChunkLen, FreshPiece;
    var b := NextBlock(p.open, p.requestTime, now.read(piece), cfg.timeout).value;
    var s' := s.(requested := s.requested[piece := MarkRequested(p, b, now.stamp)]);
    var block := Block(piece, b * BLOCK_SIZE, ChunkLen(cfg.PieceLen(piece), BLOCK_SIZE, b));
    assert TakesBlock(cfg, s, piece, now, s', block);
  }

  // ----- runs in which the order is spoilt ---------------------------------

  /** The walk can miss the piece: at counters 3, 0, 0, 0 the search for piece 0 is for 0. */
  lemma WalkCanMiss()
    ensures var s, avail := [1, 2, 3, 0], [3, 0, 0, 0];
      && IsPermutation(s, |avail|) && Ordered(s, avail) && SearchedFor(avail, 0, 0) && Boundary(s, avail, 0, 3)
      && s[WalkBack(s, 0, 2)] != 0
  {
    hide IsPermutation, WalkBack;
    ZeroLast();
    WalkToTheFront([1, 2, 3, 0], 0, 2);
  }

  lemma ZeroLast()
    ensures IsPermutation([1, 2, 3, 0], 4)
  {
    assert Iota(4) == [0, 1, 2, 3];
  }

  lemma {:induction false} WalkToTheFront(s: seq<nat>, piece: nat, i: nat)
    requires i < |s| && forall k :: 0 <= k <= i ==> s[k] != piece
    ensures WalkBack(s, piece, i) == 0
  {
    if i > 0 {
      WalkToTheFront(s, piece, i - 1);
    }
  }

  /** In order of counters 2, 0, 0, ...: the other pieces before piece 0. */
  ghost function ZeroAtTheEnd(n: nat): (s: seq<nat>)
    requires n >= 2
    ensures |s| == n && IsPermutation(s, n)
    ensures forall k :: 0 <= k < n ==> s[k] == if k == n - 1 then 0 else k + 1
  {
    assert Iota(n) == [0] + Iota(n)[1..];
    Iota(n)[1..] + [0]
  }

  ghost function Counters(n: nat, first: uint16, second: uint16): (r: seq<uint16>)
    ensures |r| == n && forall k :: 0 <= k < n ==> r[k] == if k == 0 then first else if k == 1 then second else 0
  {
    seq(n, k => if k == 0 then first else if k == 1 then second else 0)
  }

  /** So many peers that have just piece 0 have joined. */
  ghost function HaveZero(cfg: Config, first: uint16): State
    requires cfg.Ok()
  {
    Init(cfg).(avail := Counters(cfg.PiecesCnt(), first, 0))
  }

  /** Then the list was sorted. */
  ghost function ThenSorted(cfg: Config): State
    requires cfg.Ok() && cfg.PiecesCnt() >= 2
  {
    HaveZero(cfg, 2).(sorted := ZeroAtTheEnd(cfg.PiecesCnt()), isSorted := true)
  }

  /** A peer announces piece 1: piece 0 is now before piece 1, though piece 1 is rarer. */
  ghost function ThenSpoilt(cfg: Config): State
    requires cfg.Ok() && cfg.PiecesCnt() >= 2
  {
    var n := cfg.PiecesCnt();
    ThenSorted(cfg).(sorted := ZeroAtTheEnd(n)[0 := 0][n - 1 := 1], avail := Counters(n, 2, 1))
  }

  lemma OneMoreHasZero(cfg: Config, k: uint16)
    requires cfg.Ok() && k < 2 && cfg.PiecesCnt() >= 2 && Inv(cfg, HaveZero(cfg, k))
    ensures Step(cfg, HaveZero(cfg, k), PeerJoined(OnlyPiece(cfg.PiecesCnt(), 0)), HaveZero(cfg, k + 1))
  {
    hide Inv, CeilDiv;
    var s, bits := HaveZero(cfg, k), OnlyPiece(cfg.PiecesCnt(), 0);
    assert AdjustAvail(s.avail, bits, 1) == HaveZero(cfg, k + 1).avail;
  }

  lemma TwoHaveZero(cfg: Config) returns (steps: seq<Transition>)
    requires cfg.Ok() && cfg.PiecesCnt() >= 2
    ensures Reachable(cfg, steps, HaveZero(cfg, 2)) && Inv(cfg, HaveZero(cfg, 2))
  {
    hide Inv, Step, CeilDiv, Leads;
    InitInv(cfg);
    NoSteps(cfg);
    assert HaveZero(cfg, 0).avail == Init(cfg).avail;
    var s0, s1, s2 := HaveZero(cfg, 0), HaveZero(cfg, 1), HaveZero(cfg, 2);
    var e := PeerJoined(OnlyPiece(cfg.PiecesCnt(), 0));
    OneMoreHasZero(cfg, 0);
    StepKeepsInv(cfg, s0, e, s1);
    OneMoreHasZero(cfg, 1);
    StepKeepsInv(cfg, s1, e, s2);
    LeadsSnoc(cfg, s0, [], s0, e, s1);
    LeadsSnoc(cfg, s0, [] + [Transition(e, s1)], s1, e, s2);
    steps := [] + [Transition(e, s1)] + [Transition(e, s2)];
  }

  lemma ThenSortedIsAStep(cfg: Config)
    requires cfg.Ok() && cfg.PiecesCnt() >= 2 && Inv(cfg, HaveZero(cfg, 2))
    ensures Step(cfg, HaveZero(cfg, 2), BlockAsked(NoPieces(cfg.PiecesCnt()), StillAt(0), None), ThenSorted(cfg))
  {
    hide IsPermutation, RequestedOk, InTorrent, CeilDiv, NextBlock, FreshPiece;
    var s, t, n := HaveZero(cfg, 2), ThenSorted(cfg), cfg.PiecesCnt();
    LeftIsCount(cfg, s);
    NothingCompleted(s.completed);
    PermutationIndices(t.sorted, n);
    assert s.(sorted := t.sorted, isSorted := true) == t;
    assert Ordered(t.sorted, s.avail);
    assert Answers(cfg, s, NoPieces(n), StillAt(0), t, None);
  }

  lemma ThenSpoiltIsAStep(cfg: Config)
    requires cfg.Ok() && cfg.PiecesCnt() >= 2 && Inv(cfg, ThenSorted(cfg))
    ensures Step(cfg, ThenSorted(cfg), PeerHas(1), ThenSpoilt(cfg))
  {
    hide Inv, CeilDiv, IsPermutation;
    var s, t, n := ThenSorted(cfg), ThenSpoilt(cfg), cfg.PiecesCnt();
    ListIsPermutation(cfg, s);
    assert WalkBack(s.sorted, 1, n - 1) == 0;
    assert ReorderedAt(s.sorted, t.sorted, s.avail, 1, 2, n);
    assert s.avail[1 := 1] == t.avail;
  }

  /** The list is taken for sorted and is not, and some peer is answered from a piece that is not
      a rarest of those it could have had. */
  ghost predicate AnswersFromCommoner(cfg: Config, s: State)
    requires cfg.Ok()
  {
    Inv(cfg, s) && s.isSorted && !Ordered(s.sorted, s.avail) && !AlwaysRarest(cfg, s, StillAt(0))
  }

  lemma SpoiltAnswers(cfg: Config)
    requires cfg.Ok() && cfg.PiecesCnt() >= 2 && Inv(cfg, ThenSpoilt(cfg))
    ensures AnswersFromCommoner(cfg, ThenSpoilt(cfg))
  {
    var s, n := ThenSpoilt(cfg), cfg.PiecesCnt();
    ListIsPermutation(cfg, s);
    assert s.avail[s.sorted[0]] == 2 && s.avail[s.sorted[n - 1]] == 1;
    LeftIsCount(cfg, s);
    NothingCompleted(s.completed);
    CeilDivBounds(MAX_MEMPOOL_SIZE, cfg.pieceSize);
    hide Inv, IsPermutation, AlwaysRarest, CeilDiv;
    assert MayYield(cfg, s, StillAt(0), s.sorted[0]) && MayYield(cfg, s, StillAt(0), s.sorted[n - 1]);
    assert !YieldsInOrder(cfg, s, StillAt(0));
    AlwaysRarestIff(cfg, s, StillAt(0));
  }

  /** The exact condition: the order can be spoilt, and an answer then come from a piece that is
      not a rarest, in every torrent of two pieces or more and in no other. */
  lemma OrderCanBeSpoiltIff(cfg: Config)
    requires cfg.Ok()
    ensures (exists steps, s :: Reachable(cfg, steps, s) && AnswersFromCommoner(cfg, s)) <==> cfg.PiecesCnt() >= 2
  {
    hide Inv, Step, Leads, Reachable, AnswersFromCommoner, CeilDiv;
    if steps, s :| Reachable(cfg, steps, s) && AnswersFromCommoner(cfg, s) {
      CommonerNeedsTwo(cfg, s);
    }
    if cfg.PiecesCnt() >= 2 {
      var steps := SpoiltRun(cfg);
      assert Reachable(cfg, steps, ThenSpoilt(cfg)) && AnswersFromCommoner(cfg, ThenSpoilt(cfg));
    }
  }

  lemma CommonerNeedsTwo(cfg: Config, s: State)
    requires cfg.Ok() && AnswersFromCommoner(cfg, s)
    ensures cfg.PiecesCnt() >= 2
  {
    PermutationIndices(s.sorted, cfg.PiecesCnt());
  }

  lemma SpoiltRun(cfg: Config) returns (steps: seq<Transition>)
    requires cfg.Ok() && cfg.PiecesCnt() >= 2
    ensures Reachable(cfg, steps, ThenSpoilt(cfg)) && AnswersFromCommoner(cfg, ThenSpoilt(cfg))
  {
    hide Inv, Step, Leads, AnswersFromCommoner, CeilDiv, HaveZero, ThenSorted, ThenSpoilt;
    InitInv(cfg);
    var first := TwoHaveZero(cfg);
    var s2, s3, s4 := HaveZero(cfg, 2), ThenSorted(cfg), ThenSpoilt(cfg);
    var e := BlockAsked(NoPieces(cfg.PiecesCnt()), StillAt(0), None);
    ThenSortedIsAStep(cfg);
    StepKeepsInv(cfg, s2, e, s3);
    ThenSpoiltIsAStep(cfg);
    StepKeepsInv(cfg, s3, PeerHas(1), s4);
    LeadsSnoc(cfg, Init(cfg), first, s2, e, s3);
    LeadsSnoc(cfg, Init(cfg), first + [Transition(e, s3)], s3, PeerHas(1), s4);
    SpoiltAnswers(cfg);
    steps := first + [Transition(e, s3)] + [Transition(PeerHas(1), s4)];
  }

  /** The search for this piece would compare with a counter that is not there. */
  ghost predicate ReadsPastTheEnd(s: State, piece: nat) {
    s.isSorted && piece < |s.avail| && s.avail[piece] >= |s.avail|
  }

  /** That can come about if and only if there are fewer pieces than a counter can count. */
  lemma CanReadPastTheEndIff(cfg: Config)
    requires cfg.Ok() && cfg.PiecesCnt() >= 1
    ensures (exists steps, s, piece :: Reachable(cfg, steps, s) && ReadsPastTheEnd(s, piece))
       <==> cfg.PiecesCnt() < TWO_TO_16
  {
    hide Inv, Step, CeilDiv, Reachable;
    if steps, s, piece :| Reachable(cfg, steps, s) && ReadsPastTheEnd(s, piece) {
      ReachableSizes(cfg, steps, s);
    }
    if cfg.PiecesCnt() < TWO_TO_16 {
      var steps, s := AllJoinAndAsk(cfg);
      assert Reachable(cfg, steps, s) && ReadsPastTheEnd(s, 0);
    }
  }

  lemma ReachableSizes(cfg: Config, steps: seq<Transition>, s: State)
    requires cfg.Ok() && Reachable(cfg, steps, s)
    ensures Inv(cfg, s) && |s.avail| == cfg.PiecesCnt()
  {
    hide Inv, Step;
    InitInv(cfg);
    RunKeepsInv(cfg, Init(cfg), steps, s);
    StateSizes(cfg, s);
  }

  /** So many peers with every piece have joined. */
  ghost function Joined(cfg: Config, n: uint16): State
    requires cfg.Ok()
  {
    Init(cfg).(avail := seq(cfg.PiecesCnt(), _ => n))
  }

  lemma {:induction false} AllJoin(cfg: Config, n: uint16) returns (steps: seq<Transition>)
    requires cfg.Ok()
    ensures Reachable(cfg, steps, Joined(cfg, n)) && Inv(cfg, Joined(cfg, n))
    decreases n
  {
    hide Inv, Step, CeilDiv;
    InitInv(cfg);
    if n == 0 {
      steps := [];
      assert Joined(cfg, 0).avail == Init(cfg).avail;
    } else {
      var before := AllJoin(cfg, n - 1);
      var e := PeerJoined(AllPieces(cfg.PiecesCnt()));
      OneMoreJoins(cfg, n);
      StepKeepsInv(cfg, Joined(cfg, n - 1), e, Joined(cfg, n));
      LeadsSnoc(cfg, Init(cfg), before, Joined(cfg, n - 1), e, Joined(cfg, n));
      steps := before + [Transition(e, Joined(cfg, n))];
    }
  }

  lemma OneMoreJoins(cfg: Config, n: uint16)
    requires cfg.Ok() && n > 0 && Inv(cfg, Joined(cfg, n - 1))
    ensures Step(cfg, Joined(cfg, n - 1), PeerJoined(AllPieces(cfg.PiecesCnt())), Joined(cfg, n))
  {
    hide Inv, CeilDiv;
    StateSizes(cfg, Joined(cfg, n - 1));
    assert AdjustAvail(Joined(cfg, n - 1).avail, AllPieces(cfg.PiecesCnt()), 1) == Joined(cfg, n).avail;
  }

  ghost function NoPieces(n: nat): (bits: seq<bool>)
    ensures |bits| == n && forall k :: 0 <= k < n ==> !bits[k]
  {
    seq(n, _ => false)
  }

  /** As many peers as there are pieces have joined, and the list was sorted for a peer
      without any piece. */
  lemma AllJoinAndAsk(cfg: Config) returns (steps: seq<Transition>, s: State)
    requires cfg.Ok() && 1 <= cfg.PiecesCnt() < TWO_TO_16
    ensures Reachable(cfg, steps, s) && ReadsPastTheEnd(s, 0)
  {
    hide Inv, Step, CeilDiv;
    InitInv(cfg);
    var n: uint16 := cfg.PiecesCnt();
    var before := AllJoin(cfg, n);
    var t := Joined(cfg, n);
    s := t.(isSorted := true);
    var e := BlockAsked(NoPieces(n), StillAt(0), None);
    SortedForNobody(cfg, t, n);
    LeadsSnoc(cfg, Init(cfg), before, t, e, s);
    steps := before + [Transition(e, s)];
  }

  lemma SortedForNobody(cfg: Config, s: State, n: uint16)
    requires cfg.Ok() && Inv(cfg, s) && n == cfg.PiecesCnt() >= 1 && s == Joined(cfg, n)
    ensures Step(cfg, s, BlockAsked(NoPieces(n), StillAt(0), None), s.(isSorted := true))
  {
    hide IsPermutation, RequestedOk, InTorrent, CeilDiv, NextBlock, FreshPiece;
    StateSizes(cfg, s);
    LeftIsCount(cfg, s);
    ListIsPermutation(cfg, s);
    NothingCompleted(s.completed);
    var s1 := s.(isSorted := true);
    assert s.(sorted := s1.sorted, isSorted := true) == s1;
    assert Ordered(s1.sorted, s.avail);
    assert Answers(cfg, s, NoPieces(n), StillAt(0), s1, None);
  }

  lemma {:induction false} NothingCompleted(bs: seq<bool>)
    requires forall k :: 0 <= k < |bs| ==> !bs[k]
    ensures CountFalse(bs) == |bs|
  {
    if bs != [] {
      NothingCompleted(bs[..|bs| - 1]);
    }
  }
}
