/** What a connection's operations do, with the numbers written out and the client's state looked
    at through its fields: the bytes on the wire, the window, the requests. */
module PlainPeer {
  import opened Prelude
  import opened Layout
  import opened Pools
  import opened Pieces
  import opened Engine
  import opened Window
  import opened Messages
  import opened Peers
  import D = Download
  import E = Endgame
  import PlainEngine

  // ----- the wire ----------------------------------------------------------

  /** The four bytes of a word, the most significant one first. */
  function Word(v: nat): (r: seq<int>) {
    [v / 0x100_0000, v / 0x1_0000 % 256, v / 256 % 256, v % 256]
  }

  function Value(b: seq<byte>): int
    requires |b| >= 4
  {
    b[0] as int * 0x100_0000 + b[1] as int * 0x1_0000 + b[2] as int * 256 + b[3] as int
  }

  lemma WordIs(v: nat)
    requires v < 0x1_0000_0000
    ensures forall k :: 0 <= k < 4 ==> BigEndian(v)[k] as int == Word(v)[k]
  {
    var w := v / 256;
    var x := w / 256;
    assert x == v / 0x1_0000 && x / 256 == v / 0x100_0000;
  }

  /** A request is the length 13, the id 6 and three words; a cancel has the id 8. */
  lemma SeventeenBytes(b: Block, cancel: bool)
    requires b.piece < 0x1_0000_0000 && b.offset < 0x1_0000_0000 && b.size < 0x1_0000_0000
    ensures var m := Wire(if cancel then CANCEL else REQUEST, BlockPayload(b));
      && |m| == 17 && m[..5] == [0, 0, 0, 13, if cancel then 8 else 6]
      && forall k :: 0 <= k < 4 ==>
           m[5 + k] as int == Word(b.piece)[k] && m[9 + k] as int == Word(b.offset)[k]
           && m[13 + k] as int == Word(b.size)[k]
  {
    hide BigEndian;
    WordIs(13);
    WordIs(b.piece);
    WordIs(b.offset);
    WordIs(b.size);
    assert BigEndian(13) == [0, 0, 0, 13];
  }

  /** A piece message is refused if it has fewer than eight bytes; otherwise it is the index, the
      offset and the data. */
  lemma PieceMessageIs(payload: seq<byte>)
    ensures ParsePieceMessage(payload) == None <==> |payload| < 8
    ensures |payload| >= 8 ==>
      var (piece, data, offset) := ParsePieceMessage(payload).value;
      piece == Value(payload) && offset == Value(payload[4..]) && data == payload[8..]
  {
    if |payload| >= 8 {
      MemoryToNetworkOrder(payload[..4]);
      MemoryToNetworkOrder(payload[4..8]);
    }
  }

  lemma HaveIndexIs(payload: seq<byte>)
    requires |payload| == 4
    ensures BigEndianValue(payload) == Value(payload)
  {
  }

  /** Bit k of a byte is worth 2^(7 - k). */
  lemma BitIs(b: byte, k: nat)
    requires k < 8
    ensures BitOf(b, k) <==> b as int / [128, 64, 32, 16, 8, 4, 2, 1][k] % 2 == 1
  {
    ShiftIs(b, 7 - k);
  }

  lemma ShiftIs(v: nat, n: nat)
    requires n < 8
    ensures ShiftRight(v, n) == v / [1, 2, 4, 8, 16, 32, 64, 128][n]
  {
    if n > 0 {
      ShiftIs(v / 2, n - 1);
    }
  }

  // ----- the window --------------------------------------------------------

  /** A request is given up on while it is at most five seconds old. */
  lemma ExpiresIs(e: Entry, now: int)
    ensures Expires(e, now) <==> now - e.time <= 5000
  {
  }

  /** Before endgame mode a refresh keeps only requests more than five seconds old, and gives up
      only on others. */
  lemma KeptIs(kept: seq<Entry>, before: seq<Entry>, from: int, to: int)
    requires SiftedBetween(kept, before, KeptUntil(to), ExpiredFrom(from))
    ensures forall e :: e in kept ==> e in before && to - e.time > 5000
    ensures forall e :: multiset(kept)[e] <= multiset(before)[e]
    ensures forall e :: multiset(kept)[e] < multiset(before)[e] ==> from - e.time <= 5000
  {
    forall e | e in kept ensures e in before && to - e.time > 5000 {
      assert e in multiset(kept) && e in multiset(before);
    }
  }

  /** The client has the block: its piece is completed, or in progress without missing it. */
  ghost predicate Has(s: State, b: Block) {
    && b.piece < |s.completed|
    && (s.completed[b.piece] || (b.piece in s.requested && b.offset / 16384 !in s.requested[b.piece].open))
  }

  ghost function Times(w: Window, b: Block): nat {
    multiset(w.remaining)[b] + multiset(Blocks(w.pending))[b]
  }

  /** After an endgame refresh no block that the client has is left in the window, every other
      is there as often as before, and the cancelled ones are exactly the pending ones it has;
      a request stays only if it is more than five seconds old. */
  lemma RefreshIs(cfg: Config, s: State, w: Window, from: int, to: int, w': Window, cancelled: seq<Block>)
    requires Refreshed(w, Got(cfg, s), KeptUntil(to), ExpiredFrom(from), w', cancelled)
    ensures forall b :: Times(w', b) == if Has(s, b) then 0 else Times(w, b)
    ensures forall b :: multiset(cancelled)[b] == if Has(s, b) then multiset(Blocks(w.pending))[b] else 0
    ensures forall b :: b in w'.remaining || b in Blocks(w'.pending) ==> !Has(s, b)
    ensures forall e :: e in w'.pending ==> e in w.pending && to - e.time > 5000
    ensures forall e :: multiset(w'.pending)[e] < multiset(w.pending)[e] ==> Has(s, e.block) || from - e.time <= 5000
  {
    forall b: Block ensures Got(cfg, s)(b) <==> Has(s, b) {
    }
    forall b: Block
      ensures Times(w', b) == if Has(s, b) then 0 else Times(w, b)
      ensures b in w'.remaining || b in Blocks(w'.pending) ==> !Has(s, b)
    {
      assert Holds(w', b) == if Got(cfg, s)(b) then 0 else Holds(w, b);
      assert b in w'.remaining <==> multiset(w'.remaining)[b] > 0;
      assert b in Blocks(w'.pending) <==> multiset(Blocks(w'.pending))[b] > 0;
    }
    forall e | e in w'.pending ensures e in w.pending && to - e.time > 5000 {
      assert e in multiset(w'.pending) && e in multiset(w.pending);
    }
  }

  /** A load takes as many of the remaining blocks as it may, and there are. */
  lemma LoadIs(w: Window, n: nat, from: int, to: int, w': Window)
    requires Loaded(w, n, from, to, w')
    ensures |w'.pending| == |w.pending| + (if n <= |w.remaining| then n else |w.remaining|)
    ensures w'.pending[..|w.pending|] == w.pending
    ensures forall k :: |w.pending| <= k < |w'.pending| ==> from <= w'.pending[k].time <= to
    ensures forall b :: Times(w', b) == Times(w, b)
  {
    forall b ensures Times(w', b) == Times(w, b) {
      assert Holds(w', b) == Holds(w, b);
    }
  }

  /** The blocks a peer begins the endgame loop with: the listed ones of its pieces, and no other. */
  lemma ShareIs(remaining: seq<Block>, list: seq<Block>, bits: seq<bool>)
    requires Sifted(remaining, list, OwnedBy(bits))
    ensures forall b: Block :: b.piece < |bits| && bits[b.piece] ==> multiset(remaining)[b] == multiset(list)[b]
    ensures forall b :: b in remaining ==> b.piece < |bits| && bits[b.piece] && b in list
  {
    forall b | b in remaining ensures b.piece < |bits| && bits[b.piece] && b in list {
      assert multiset(remaining)[b] > 0 && b in multiset(list);
    }
  }

  /** A peer may enter the endgame loop at any time.  Unless a piece fails its check in endgame mode,
      after whatever is done by anyone, each block that the client misses of an incomplete piece
      the peer has is in the peer's window: asked for or still to be asked for. */
  lemma EachMissingIsHeld(cfg: Config, steps: seq<D.Transition>, s: State, bits: seq<bool>, w: Window,
                          more: seq<E.PeerTransition>, t: State, v: Window, i: nat, c: nat)
    requires cfg.Ok() && E.ReachableWithoutLoss(cfg, steps, s)
    requires s.endgame && Sifted(w.remaining, s.endgameRequests, OwnedBy(bits))
    requires Inv(cfg, s) && E.Interleaving(cfg, s, w, more, t, v)
    requires i < |t.completed| && !t.completed[i] && i < |bits| && bits[i]
    requires c * 16384 < PlainEngine.Length(cfg, i) && (i in t.requested ==> c in t.requested[i].open)
    ensures Times(v, Block(i, c * 16384, 16384)) > 0
  {
    hide Inv, E.ReachableWithoutLoss, E.Interleaving, E.Covered, E.TracksAll, CeilDiv, ChunkLen, PlainEngine.Length;
    E.EnteringPeerHoldsAll(cfg, steps, s, bits, w, more, t, v);
    D.StateSizes(cfg, t);
    PlainEngine.LengthIs(cfg, i);
    BlockOfOffset(cfg.PieceLen(i), c * 16384);
    assert E.Missing(cfg, t, Block(i, c * 16384, 16384));
    assert Holds(v, Block(i, c * 16384, 16384)) > 0;
  }

  /** What is left of a sequence stands in it at increasing positions. */
  lemma {:induction false} InOrderIs<T>(r: seq<T>, s: seq<T>) returns (at: seq<nat>)
    requires Subsequence(r, s)
    ensures |at| == |r| && forall k :: 0 <= k < |r| ==> at[k] < |s| && s[at[k]] == r[k]
    ensures forall i, j :: 0 <= i < j < |r| ==> at[i] < at[j]
    decreases |s|
  {
    if r == [] {
      at := [];
    } else {
      var m, n := |r| - 1, |s| - 1;
      if r[m] == s[n] {
        at := InOrderIs(r[..m], s[..n]);
        at := at + [n];
      } else {
        at := InOrderIs(r, s[..n]);
      }
    }
  }

  /** An answer settles the first request for exactly its block, the last one taking its place. */
  lemma AnswerIs(w: Window, b: Block, w': Window) returns (i: nat)
    requires Answered(w, b, w')
    ensures w'.remaining == w.remaining
    ensures (forall k :: 0 <= k < |w.pending| ==> w.pending[k].block != b) ==> w' == w
    ensures (exists k :: 0 <= k < |w.pending| && w.pending[k].block == b) ==>
      && i < |w.pending| && w.pending[i].block == b && (forall k :: 0 <= k < i ==> w.pending[k].block != b)
      && |w'.pending| == |w.pending| - 1
      && forall k :: 0 <= k < |w'.pending| ==>
           w'.pending[k] == w.pending[if k == i then |w.pending| - 1 else k]
  {
    i := 0;
    if k :| 0 <= k < |w.pending| && w.pending[k].block == b {
      assert Blocks(w.pending)[k] == b;
      i := IndexOf(Blocks(w.pending), b);
    }
  }
}
