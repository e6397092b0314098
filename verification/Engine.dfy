/** The download engine as a state machine over values: what each operation of
    the piece manager does to the torrent's state, and what every step keeps. */
module Engine {
  import opened Prelude
  import opened Layout
  import opened Pieces

  /** A block as the protocol names it. */
  datatype Block = Block(piece: nat, offset: nat, size: nat)

  /** The blocks of the pieces a peer has. */
  ghost function OwnedBy(bits: seq<bool>): Block -> bool {
    (b: Block) => b.piece < |bits| && bits[b.piece]
  }

  datatype Config = Config(pieceSize: nat, torrentSize: nat, hashes: seq<byte>, timeout: int,
                           digest: seq<byte> -> seq<byte>)
  {
    ghost predicate Ok() {
      && 1 <= pieceSize <= MAX_PIECE_SIZE
      && PiecesCnt() * SHA1_SIZE <= |hashes| < TWO_TO_32
    }

    function PiecesCnt(): nat
      requires pieceSize > 0
    {
      ChunkCount(torrentSize, pieceSize)
    }

    /** How many pieces may be in progress at once. */
    function Cap(): nat
      requires pieceSize > 0
    {
      CeilDiv(MAX_MEMPOOL_SIZE, pieceSize)
    }

    function PieceLen(i: nat): nat
      requires pieceSize > 0 && i < PiecesCnt()
    {
      ChunkLen(torrentSize, pieceSize, i)
    }

    function RefHash(i: nat): seq<byte>
      requires Ok() && i < PiecesCnt()
    {
      hashes[i * SHA1_SIZE..i * SHA1_SIZE + SHA1_SIZE]
    }

    /** Where piece i is written: the product is taken in 32-bit arithmetic. */
    function DiskOffset(i: nat): nat {
      ToUint32(i * pieceSize)
    }

    /** No piece offset wraps around. */
    ghost predicate OffsetsFit()
      requires pieceSize > 0
    {
      PiecesCnt() > 0 ==> (PiecesCnt() - 1) * pieceSize < TWO_TO_32
    }

    /** The bytes of the output that belong to piece i. */
    ghost function Tile(disk: seq<byte>, i: nat): (r: seq<byte>)
      requires pieceSize > 0 && i < PiecesCnt() && |disk| == torrentSize
      ensures |r| == PieceLen(i)
    {
      ChunkFits(torrentSize, pieceSize, i);
      disk[i * pieceSize..i * pieceSize + PieceLen(i)]
    }

    /** A piece's data passes the check against its recorded digest. */
    ghost predicate Verified(data: seq<byte>, i: nat)
      requires Ok() && i < PiecesCnt()
    {
      digest(data) == RefHash(i)
    }
  }

  datatype State = State(completed: seq<bool>, left: int, avail: seq<uint16>, requested: map<nat, PieceState>,
                         sorted: seq<nat>, isSorted: bool, flag: bool,
                         endgame: bool, endgameRequests: seq<Block>, disk: seq<byte>)

  ghost function Init(cfg: Config): State
    requires cfg.Ok()
  {
    var n := cfg.PiecesCnt();
    State(seq(n, _ => false), n, seq(n, _ => 0), map[], Iota(n), false, false, false, [],
          seq(cfg.torrentSize, _ => 0))
  }

  // ----- availability and the sorted order ---------------------------------

  ghost predicate IsPermutation(s: seq<nat>, n: nat) {
    multiset(s) == multiset(Iota(n))
  }

  lemma PermutationIndices(s: seq<nat>, n: nat)
    requires IsPermutation(s, n)
    ensures |s| == n
    ensures forall p: nat :: p in s <==> p < n
    ensures InRange(s, n)
  {
    assert |multiset(s)| == |multiset(Iota(n))|;
    forall p: nat ensures p in s <==> p < n {
      assert p in s <==> p in multiset(s);
      assert p in Iota(n) <==> p in multiset(Iota(n));
      assert p < n ==> Iota(n)[p] == p;
    }
    assert forall k :: 0 <= k < |s| ==> s[k] in s;
  }

  ghost predicate InRange(s: seq<nat>, n: nat) {
    forall k :: 0 <= k < |s| ==> s[k] < n
  }

  /** Rarest pieces first. */
  ghost predicate Ordered(s: seq<nat>, avail: seq<nat>) {
    && InRange(s, |avail|)
    && (forall i, j :: 0 <= i < j < |s| ==> avail[s[i]] <= avail[s[j]])
  }

  /** Counts a peer's bitfield in (+1) or out (-1); the counters are 16 bits wide. */
  function AdjustAvail(avail: seq<uint16>, bits: seq<bool>, sign: int): (r: seq<uint16>)
    requires |avail| <= |bits|
    ensures |r| == |avail|
  {
    seq(|avail|, i requires 0 <= i < |avail| => if bits[i] then (avail[i] + sign) % TWO_TO_16 else avail[i])
  }

  ghost predicate AnyBit(bits: seq<bool>, n: nat)
    requires n <= |bits|
  {
    exists i :: 0 <= i < n && bits[i]
  }

  /** Where a binary search for w can end: what stands just before is at most w, what stands
      there is more.  In an ordered list that is one place only. */
  ghost predicate Boundary(s: seq<nat>, avail: seq<nat>, w: nat, bound: nat)
    requires InRange(s, |avail|)
  {
    && bound <= |s|
    && (bound > 0 ==> avail[s[bound - 1]] <= w)
    && (bound < |s| ==> avail[s[bound]] > w)
  }

  /** The backward walk from i on: it stops at the piece, or at the front without it. */
  function WalkBack(s: seq<nat>, piece: nat, i: nat): (r: nat)
    requires i < |s|
    ensures r <= i && (r > 0 ==> s[r] == piece)
    ensures forall k :: r < k <= i ==> s[k] != piece
  {
    if i > 0 && s[i] != piece then WalkBack(s, piece, i - 1) else i
  }

  /** The entry before the boundary trades places with the one where the walk stops.  With
      nothing before the boundary the swap is of a place outside the list with itself. */
  function SwapUp(s: seq<nat>, piece: nat, bound: nat): (r: seq<nat>)
    requires bound <= |s|
    ensures |r| == |s|
  {
    if bound == 0 then s
    else
      var last := bound - 1;
      var i := WalkBack(s, piece, last);
      s[i := s[last]][last := s[i]]
  }

  /** What the search compares with: not the piece's counter, but the counter of the piece
      that has this number.  Past the end of the counters it may find anything. */
  ghost predicate SearchedFor(avail: seq<nat>, piece: nat, w: nat)
    requires piece < |avail|
  {
    avail[piece] < |avail| ==> w == avail[avail[piece]]
  }

  ghost predicate Reordered(s: seq<nat>, s': seq<nat>, avail: seq<nat>, piece: nat)
    requires piece < |avail| && InRange(s, |avail|)
  {
    exists w: nat, bound: nat :: ReorderedAt(s, s', avail, piece, w, bound)
  }

  ghost predicate ReorderedAt(s: seq<nat>, s': seq<nat>, avail: seq<nat>, piece: nat, w: nat, bound: nat)
    requires piece < |avail| && InRange(s, |avail|)
  {
    SearchedFor(avail, piece, w) && Boundary(s, avail, w, bound) && s' == SwapUp(s, piece, bound)
  }

  /** Whatever is swapped, the order still names every piece once. */
  lemma ReorderedPermutes(s: seq<nat>, s': seq<nat>, avail: seq<nat>, piece: nat, n: nat)
    requires piece < |avail| && InRange(s, |avail|) && IsPermutation(s, n) && Reordered(s, s', avail, piece)
    ensures IsPermutation(s', n)
  {
    hide IsPermutation, SearchedFor;
    var w: nat, bound: nat :| ReorderedAt(s, s', avail, piece, w, bound);
    if bound > 0 {
      SwapPermutes(s, n, WalkBack(s, piece, bound - 1), bound - 1);
    }
  }

  lemma NoDupAt<T>(s: seq<T>, a: nat, b: nat)
    requires NoDup(s) && a < |s| && b < |s|
    ensures s[a] == s[b] <==> a == b
  {
  }

  lemma SwapPermutes(s: seq<nat>, n: nat, i: nat, j: nat)
    requires i < |s| && j < |s| && IsPermutation(s, n)
    ensures IsPermutation(s[i := s[j]][j := s[i]], n)
  {
  }

  lemma PermutationInjective(s: seq<nat>, n: nat)
    requires IsPermutation(s, n)
    ensures NoDup(s)
  {
    forall i, j | 0 <= i < j < |s| ensures s[i] != s[j] {
      if s[i] == s[j] {
        var x := s[i];
        assert s == s[..i] + [x] + s[i + 1..j] + [x] + s[j + 1..];
        assert multiset(s)[x] >= 2;
        IotaOnce(n, x);
        assert false;
      }
    }
  }

  lemma {:induction false} IotaOnce(n: nat, x: nat)
    ensures multiset(Iota(n))[x] <= 1
  {
    if n > 0 {
      IotaOnce(n - 1, x);
      assert Iota(n) == Iota(n - 1) + [n - 1];
      assert x == n - 1 ==> x !in Iota(n - 1);
      assert x in Iota(n - 1) <==> x in multiset(Iota(n - 1));
    }
  }

  // ----- receiving a block -------------------------------------------------

  function AcceptBlock(cfg: Config, s: State, piece: nat, block: seq<byte>, offset: nat): State
    requires cfg.Ok() && Inv(cfg, s)
    requires piece in s.requested ==> Arrives(s.requested[piece], offset, |block|)
  {
    if piece !in s.requested then s
    else
      var p := Receive(s.requested[piece], block, offset);
      if p.open != [] then s.(requested := s.requested[piece := p])
      else
        RequestedPiece(cfg, s, piece);
        ReceiveOk(s.requested[piece], cfg.PieceLen(piece), block, offset);
        FinishPiece(cfg, s, piece, p.data)
  }

  /** All blocks are in: the piece is checked, written if good, and forgotten in either case. */
  function FinishPiece(cfg: Config, s: State, piece: nat, data: seq<byte>): State
    requires cfg.Ok() && piece < cfg.PiecesCnt() && |data| == cfg.PieceLen(piece)
    requires |s.completed| == cfg.PiecesCnt() && |s.disk| == cfg.torrentSize
  {
    if cfg.digest(data) != cfg.RefHash(piece) then
      s.(completed := s.completed[piece := false], requested := s.requested - {piece})
    else
      WriteFits(cfg, piece);
      s.(completed := s.completed[piece := true],
         left := s.left - 1,
         flag := s.flag || s.left == 1,
         requested := s.requested - {piece},
         disk := Splice(s.disk, cfg.DiskOffset(piece), data))
  }

  lemma RequestedPiece(cfg: Config, s: State, piece: nat)
    requires cfg.Ok() && Inv(cfg, s) && piece in s.requested
    ensures RequestedOk(cfg, s, piece)
  {
  }

  /** Even a wrapped offset keeps the write inside the output. */
  lemma WriteFits(cfg: Config, i: nat)
    requires cfg.Ok() && i < cfg.PiecesCnt()
    ensures cfg.DiskOffset(i) + cfg.PieceLen(i) <= cfg.torrentSize
  {
    hide ToUint32;
    ChunkFits(cfg.torrentSize, cfg.pieceSize, i);
  }

  ghost predicate IsReceived(cfg: Config, s: State, piece: nat, offset: nat)
    requires piece < |s.completed|
  {
    || s.completed[piece]
    || (piece in s.requested && offset / BLOCK_SIZE !in s.requested[piece].open)
  }

  // ----- choosing the next block -------------------------------------------

  /** The piece could give this peer a block now. */
  ghost predicate CanYield(cfg: Config, s: State, bits: seq<bool>, now: Clock, piece: nat)
    requires cfg.pieceSize > 0
  {
    && piece < |s.completed| && piece < |bits|
    && !s.completed[piece] && bits[piece]
    && (if piece in s.requested
        then NextBlock(s.requested[piece].open, s.requested[piece].requestTime, now.read(piece), cfg.timeout).Some?
        else |s.requested| < cfg.Cap())
  }

  /** The piece as it is in progress, or as it will be when started. */
  ghost function Candidate(cfg: Config, s: State, piece: nat): PieceState
    requires cfg.Ok() && piece < cfg.PiecesCnt()
  {
    if piece in s.requested then s.requested[piece] else FreshPiece(cfg.PieceLen(piece))
  }

  /** Hands out the next block of a piece, starting the piece if need be. */
  ghost predicate TakesBlock(cfg: Config, s: State, piece: nat, now: Clock, s': State, answer: Block)
    requires cfg.Ok() && piece < cfg.PiecesCnt()
  {
    var p := Candidate(cfg, s, piece);
    match NextBlock(p.open, p.requestTime, now.read(piece), cfg.timeout)
    case None => false
    case Some(b) =>
      && b < |p.requestTime| && b < BlocksIn(cfg.PieceLen(piece))
      && s' == s.(requested := s.requested[piece := MarkRequested(p, b, now.stamp)])
      && answer == Block(piece, b * BLOCK_SIZE, ChunkLen(cfg.PieceLen(piece), BLOCK_SIZE, b))
  }

  /** The endgame list names every open block of every requested piece once, at full block size. */
  ghost predicate ListsOpenBlocks(requested: map<nat, PieceState>, reqs: seq<Block>) {
    && NoDup(reqs)
    && (forall r :: r in reqs ==> OpenRequest(requested, r))
    && (forall p, b :: p in requested && b in requested[p].open ==> Block(p, b * BLOCK_SIZE, BLOCK_SIZE) in reqs)
  }

  ghost predicate OpenRequest(requested: map<nat, PieceState>, r: Block) {
    && r.piece in requested
    && r == Block(r.piece, r.offset / BLOCK_SIZE * BLOCK_SIZE, BLOCK_SIZE)
    && r.offset / BLOCK_SIZE in requested[r.piece].open
  }

  ghost predicate EndgameDue(s: State) {
    && !s.endgame && s.left == |s.requested|
    && forall p :: p in s.requested ==> Unrequested(s.requested[p].requestTime) == 0
  }

  ghost predicate EntersEndgameIfDue(s: State, s': State) {
    if EndgameDue(s) then
      && s' == s.(endgame := true, endgameRequests := s'.endgameRequests)
      && ListsOpenBlocks(s.requested, s'.endgameRequests)
    else s' == s
  }

  /** One call of request_next_block: the list is sorted unless it is believed to be, and the
      first piece in its order that can yield a block yields it; if there is none, endgame mode may begin. */
  ghost predicate Answers(cfg: Config, s: State, bits: seq<bool>, now: Clock, s': State, answer: Option<Block>)
    requires cfg.Ok() && Inv(cfg, s)
  {
    if s.left == 0 then s' == s && answer == None
    else
      var s1 := s.(sorted := s'.sorted, isSorted := true);
      && IsPermutation(s1.sorted, cfg.PiecesCnt()) && InRange(s1.sorted, |s.avail|)
      && (if s.isSorted then s1.sorted == s.sorted else Ordered(s1.sorted, s.avail))
      && match answer
         case None =>
           && (forall p :: !CanYield(cfg, s, bits, now, p))
           && EntersEndgameIfDue(s1, s')
         case Some(block) =>
           exists k :: 0 <= k < |s1.sorted| && s1.sorted[k] == block.piece
             && block.piece < cfg.PiecesCnt()
             && CanYield(cfg, s, bits, now, block.piece)
             && (forall j :: 0 <= j < k ==> !CanYield(cfg, s, bits, now, s1.sorted[j]))
             && TakesBlock(cfg, s1, block.piece, now, s', block)
  }

  // ----- steps -------------------------------------------------------------

  datatype Event =
    | PeerJoined(bits: seq<bool>)
    | PeerLeft(bits: seq<bool>)
    | PeerHas(piece: nat)
    | BlockArrived(piece: nat, block: seq<byte>, offset: nat)
    | BlockAsked(bits: seq<bool>, now: Clock, answer: Option<Block>)

  ghost predicate Step(cfg: Config, s: State, e: Event, s': State)
    requires cfg.Ok() && Inv(cfg, s)
  {
    match e
    case PeerJoined(bits) => |bits| >= cfg.PiecesCnt() && s' == CountPeer(cfg, s, bits, 1)
    case PeerLeft(bits) => |bits| >= cfg.PiecesCnt() && s' == CountPeer(cfg, s, bits, -1)
    case PeerHas(piece) =>
      CountsOneMore(s, piece, s')
    case BlockArrived(piece, block, offset) =>
      && (piece in s.requested ==> Arrives(s.requested[piece], offset, |block|))
      && s' == AcceptBlock(cfg, s, piece, block, offset)
    case BlockAsked(bits, now, answer) =>
      && |bits| >= cfg.PiecesCnt() && now.stamp > TIME_MIN
      && Answers(cfg, s, bits, now, s', answer)
  }

  ghost function CountPeer(cfg: Config, s: State, bits: seq<bool>, sign: int): State
    requires |s.avail| <= |bits|
  {
    s.(avail := AdjustAvail(s.avail, bits, sign), isSorted := s.isSorted && !AnyBit(bits, |s.avail|))
  }

  /** One more peer has the piece: its 16-bit counter grows, and an order believed to be
      sorted is changed by one swap. */
  ghost predicate CountsOneMore(s: State, piece: nat, s': State) {
    && piece < |s.avail| && InRange(s.sorted, |s.avail|)
    && s' == s.(avail := s.avail[piece := (s.avail[piece] + 1) % TWO_TO_16], sorted := s'.sorted)
    && (if s.isSorted then Reordered(s.sorted, s'.sorted, s.avail, piece) else s'.sorted == s.sorted)
  }

  // ----- the invariant -----------------------------------------------------

  function CountFalse(bs: seq<bool>): nat {
    if bs == [] then 0 else CountFalse(bs[..|bs| - 1]) + (if bs[|bs| - 1] then 0 else 1)
  }

  ghost predicate Inv(cfg: Config, s: State)
    requires cfg.Ok()
  {
    && |s.completed| == |s.avail| == cfg.PiecesCnt()
    && |s.disk| == cfg.torrentSize
    && s.left == CountFalse(s.completed)
    && s.flag == (s.left == 0 && cfg.PiecesCnt() >= 1)
    && |s.requested| <= cfg.Cap()
    && (forall p :: p in s.requested ==> RequestedOk(cfg, s, p))
    && IsPermutation(s.sorted, cfg.PiecesCnt())
    && InRange(s.sorted, |s.avail|)
    && (!s.endgame ==> s.endgameRequests == [])
    && (forall r :: r in s.endgameRequests ==> InTorrent(cfg, r))
  }

  /** A requested piece exists, is incomplete, and still has a block to receive. */
  ghost predicate RequestedOk(cfg: Config, s: State, p: nat)
    requires cfg.Ok() && |s.completed| == cfg.PiecesCnt() && p in s.requested
  {
    && p < cfg.PiecesCnt() && !s.completed[p]
    && PieceOk(s.requested[p], cfg.PieceLen(p)) && s.requested[p].open != []
  }

  ghost predicate InTorrent(cfg: Config, r: Block)
    requires cfg.Ok()
  {
    r.piece < cfg.PiecesCnt() && r.offset < cfg.PieceLen(r.piece) && r.size <= BLOCK_SIZE
  }
}
