/** The two timeouts together.  The piece manager grants a block again once it is late, and
    the window forgets it before that: a peer that answers no request can be asked for five
    blocks a turn for ever, at any pace of the loop, if some piece has blocks enough. */
module Regrants {
  import opened Prelude
  import opened Layout
  import opened Pieces
  import opened Engine
  import opened Download
  import opened Runs
  import opened EndgameEntry
  import opened Window
  import opened Turns

  /** After so many turns the first request is late, and not before. */
  function Rounds(interval: nat): (m: nat)
    requires interval > 0
    ensures m >= 1 && (m - 1) * interval <= REQUEST_TIMEOUT < m * interval
  {
    DivBounds(REQUEST_TIMEOUT, interval);
    REQUEST_TIMEOUT / interval + 1
  }

  lemma DivBounds(a: nat, b: nat)
    requires b > 0
    ensures a / b * b <= a < (a / b + 1) * b
  {
  }

  /** Piece i has five blocks for each of these turns. */
  ghost predicate Roomy(cfg: Config, i: nat, interval: nat) {
    && cfg.Ok() && i < cfg.PiecesCnt() && cfg.timeout == REQUEST_TIMEOUT
    && 1 <= interval <= REQUEST_TIMEOUT && 5 * Rounds(interval) <= BlocksIn(cfg.PieceLen(i))
  }

  /** Nothing has come of piece i, whose blocks were last asked for at these times. */
  ghost function InFlight(cfg: Config, i: nat, ts: seq<int>): State
    requires cfg.Ok() && i < cfg.PiecesCnt()
  {
    AskedAt(cfg, Init(cfg), i, ts)
  }

  ghost function Names(cfg: Config, i: nat, h: nat, n: nat): (bs: seq<Block>)
    requires cfg.Ok() && i < cfg.PiecesCnt() && h + n <= BlocksIn(cfg.PieceLen(i))
    ensures |bs| == n && forall k :: 0 <= k < n ==> bs[k] == NamedBlock(cfg, i, h + k)
  {
    seq(n, k requires 0 <= k < n => NamedBlock(cfg, i, h + k))
  }

  /** When it is the turn of round r of m, the blocks of an earlier round were asked for that many
      turns ago, the others in the cycle before or never. */
  ghost predicate LastAsked(t: int, j: nat, r: nat, m: nat, now: int, interval: nat) {
    if j < r then t == now - (r - j) * interval
    else t == TIME_MIN || t <= now - (r - j + m) * interval
  }

  ghost predicate Ready(ts: seq<int>, r: nat, now: int, interval: nat)
    requires interval > 0
  {
    var m := Rounds(interval);
    && r < m && 5 * m <= |ts| && now > REQUEST_TIMEOUT
    && forall b :: 0 <= b < 5 * m ==> LastAsked(ts[b], b / 5, r, m, now, interval)
  }

  function Restamped(ts: seq<int>, h: nat, n: nat, now: int): (r: seq<int>)
    ensures |r| == |ts|
    ensures forall b :: 0 <= b < |ts| ==> r[b] == if h <= b < h + n then now else ts[b]
  {
    seq(|ts|, b requires 0 <= b < |ts| => if h <= b < h + n then now else ts[b])
  }

  /** Each step grants the block in that place. */
  ghost predicate Grants(steps: seq<Transition>, blocks: seq<Block>) {
    && |steps| == |blocks|
    && forall k :: 0 <= k < |steps| ==> steps[k].event.BlockAsked? && steps[k].event.answer == Some(blocks[k])
  }

  lemma EarlierIsNotDue(t: int, j: nat, r: nat, now: int, interval: nat)
    requires interval > 0 && j < r < Rounds(interval) && now > REQUEST_TIMEOUT
    requires LastAsked(t, j, r, Rounds(interval), now, interval)
    ensures t > TIME_MIN && now - REQUEST_TIMEOUT <= t
  {
    var m := Rounds(interval);
    assert (r - j) * interval <= (m - 1) * interval by {
      if r - j < m - 1 {
        MulMono(r - j, m - 1, interval);
      }
    }
  }

  lemma ThisIsDue(t: int, r: nat, now: int, interval: nat)
    requires interval > 0 && LastAsked(t, r, r, Rounds(interval), now, interval)
    ensures t == TIME_MIN || now - REQUEST_TIMEOUT > t
  {
  }

  /** The block after those already granted in this turn is the next one. */
  lemma NextInTurn(ts: seq<int>, r: nat, now: int, interval: nat, n: nat, i: nat)
    requires interval > 0 && Ready(ts, r, now, interval) && n < 5
    ensures 5 * r + n < |ts|
    ensures NextBlock(Iota(|ts|), Restamped(ts, 5 * r, n, now), StillAt(now).read(i), REQUEST_TIMEOUT)
         == Some(5 * r + n)
  {
    hide LastAsked, Rounds;
    var rs, read, k := Restamped(ts, 5 * r, n, now), StillAt(now).read(i), 5 * r + n;
    assert k / 5 == r;
    ThisIsDue(ts[k], r, now, interval);
    forall b | 0 <= b < k ensures !Requestable(rs, Iota(|ts|)[b], read(Iota(|ts|)[b]), REQUEST_TIMEOUT) {
      if b < 5 * r {
        EarlierIsNotDue(ts[b], b / 5, r, now, interval);
      }
    }
    NextBlockAt(Iota(|ts|), rs, read, REQUEST_TIMEOUT, k);
  }

  /** A turn later the next round is ready. */
  lemma NextRound(ts: seq<int>, r: nat, now: int, interval: nat)
    requires interval > 0 && Ready(ts, r, now, interval)
    ensures var m := Rounds(interval);
      Ready(Restamped(ts, 5 * r, 5, now), if r + 1 == m then 0 else r + 1, now + interval, interval)
  {
    hide LastAsked, Rounds;
    var m, ts' := Rounds(interval), Restamped(ts, 5 * r, 5, now);
    var r' := if r + 1 == m then 0 else r + 1;
    forall b | 0 <= b < 5 * m ensures LastAsked(ts'[b], b / 5, r', m, now + interval, interval) {
      assert 5 * r <= b < 5 * r + 5 <==> b / 5 == r;
      OneTurnOlder(ts[b], ts'[b], b / 5, r, m, now, interval);
    }
  }

  lemma OneTurnOlder(t: int, t': int, j: nat, r: nat, m: nat, now: int, interval: nat)
    requires LastAsked(t, j, r, m, now, interval) && j < m && r < m
    requires t' == if j == r then now else t
    ensures LastAsked(t', j, if r + 1 == m then 0 else r + 1, m, now + interval, interval)
  {
    assert (r - j + 1) * interval == (r - j) * interval + interval;
    assert (r - j + m + 1) * interval == (r - j + m) * interval + interval;
    if r + 1 == m {
      assert 0 - j + m == r - j + 1;
    } else {
      assert r + 1 - j == r - j + 1 && r + 1 - j + m == r - j + m + 1;
    }
  }

  /** The grants of one turn. */
  lemma {:induction false} TurnOfGrants(cfg: Config, i: nat, ts: seq<int>, r: nat, now: int, interval: nat, n: nat)
    returns (steps: seq<Transition>)
    requires Roomy(cfg, i, interval) && Ready(ts, r, now, interval) && n <= 5 && |ts| == BlocksIn(cfg.PieceLen(i))
    requires Inv(cfg, InFlight(cfg, i, ts))
    ensures 5 * r + n <= |ts| && Inv(cfg, InFlight(cfg, i, Restamped(ts, 5 * r, n, now)))
    ensures Leads(cfg, InFlight(cfg, i, ts), steps, InFlight(cfg, i, Restamped(ts, 5 * r, n, now)))
    ensures Grants(steps, Names(cfg, i, 5 * r, n))
    decreases n
  {
    hide Inv, Step, AskedAt, NextBlock, CeilDiv, ChunkLen, Leads, Ready, Rounds, BlocksIn;
    ReadyShape(ts, r, now, interval);
    if n == 0 {
      steps := [];
      assert Restamped(ts, 5 * r, 0, now) == ts;
      EmptyLeads(cfg, InFlight(cfg, i, ts));
    } else {
      var before := TurnOfGrants(cfg, i, ts, r, now, interval, n - 1);
      var rs, b := Restamped(ts, 5 * r, n - 1, now), 5 * r + n - 1;
      var e := AskFor(cfg, i, b, now);
      NextInTurn(ts, r, now, interval, n - 1, i);
      GrantOnceMore(cfg, i, rs, now, b);
      assert rs[b := now] == Restamped(ts, 5 * r, n, now);
      StepKeepsInv(cfg, InFlight(cfg, i, rs), e, InFlight(cfg, i, rs[b := now]));
      LeadsSnoc(cfg, InFlight(cfg, i, ts), before, InFlight(cfg, i, rs), e, InFlight(cfg, i, rs[b := now]));
      steps := before + [Transition(e, InFlight(cfg, i, rs[b := now]))];
    }
  }

  lemma GrantOnceMore(cfg: Config, i: nat, ts: seq<int>, now: int, b: nat)
    requires cfg.Ok() && i < cfg.PiecesCnt() && cfg.timeout == REQUEST_TIMEOUT && now > TIME_MIN
    requires Inv(cfg, InFlight(cfg, i, ts)) && |ts| == BlocksIn(cfg.PieceLen(i)) && b < |ts|
    requires NextBlock(Iota(|ts|), ts, StillAt(now).read(i), REQUEST_TIMEOUT) == Some(b)
    ensures Step(cfg, InFlight(cfg, i, ts), AskFor(cfg, i, b, now), InFlight(cfg, i, ts[b := now]))
  {
    hide Inv, Step, NextBlock, CeilDiv, ChunkLen, Quiet;
    InitIsQuiet(cfg);
    GrantIsAStep(cfg, Init(cfg), i, ts, now, b);
  }

  lemma ReadyShape(ts: seq<int>, r: nat, now: int, interval: nat)
    requires interval > 0 && Ready(ts, r, now, interval)
    ensures 5 * r + 5 <= |ts| && now > REQUEST_TIMEOUT
  {
  }

  lemma EmptyLeads(cfg: Config, s: State)
    requires cfg.Ok() && Inv(cfg, s)
    ensures Leads(cfg, s, [], s)
  {
  }

  /** Any number of turns, each granted five blocks and none answered. */
  lemma {:induction false} TurnsAreFed(cfg: Config, i: nat, es: seq<Entry>, ts: seq<int>, r: nat, now: int,
                                       interval: nat, n: nat)
    returns (steps: seq<Transition>, ts': seq<int>, turns: seq<TurnTransition>, es': seq<Entry>)
    requires Roomy(cfg, i, interval) && Ready(ts, r, now, interval) && |ts| == BlocksIn(cfg.PieceLen(i))
    requires Inv(cfg, InFlight(cfg, i, ts)) && StampedSince(es, now - interval)
    ensures Leads(cfg, InFlight(cfg, i, ts), steps, InFlight(cfg, i, ts'))
    ensures Grants(steps, Asked(turns)) && |steps| == 5 * n
    ensures TurnsLead(es, turns, es') && |turns| == n && SettledCount(turns) == 0
    ensures n > 0 ==> |es'| == MAX_BLOCKS_PER_REQUEST
    decreases n
  {
    hide Inv, Step, InFlight, CeilDiv, ChunkLen, Leads, TurnStep, Ready, Rounds, BlocksIn, NamedBlock;
    if n == 0 {
      steps, ts', turns, es' := [], ts, [], es;
      EmptyLeads(cfg, InFlight(cfg, i, ts));
    } else {
      ReadyShape(ts, r, now, interval);
      var blocks, next := Names(cfg, i, 5 * r, 5), Restamped(ts, 5 * r, 5, now);
      var asked := At(blocks, now);
      var first := TurnTransition(Turn(now, now, asked), asked);
      var granted := TurnOfGrants(cfg, i, ts, r, now, interval, 5);
      NextRound(ts, r, now, interval);
      forall x | x in es ensures Expires(x, now) {
        var k :| 0 <= k < |es| && es[k] == x;
      }
      FullTurn(es, [], now, blocks);
      assert [] + asked == asked;
      var more, turns';
      more, ts', turns', es' := TurnsAreFed(cfg, i, asked, next, if r + 1 == Rounds(interval) then 0 else r + 1,
                                            now + interval, interval, n - 1);
      LeadsJoin(cfg, InFlight(cfg, i, ts), granted, InFlight(cfg, i, next), more, InFlight(cfg, i, ts'));
      steps, turns := granted + more, [first] + turns';
      assert turns[1..] == turns';
      assert Asked(turns) == blocks + Asked(turns');
    }
  }

  /** Once the first block of such a piece was asked for: for any n the sending loop may ask a peer
      that answers no request for five blocks a turn, n turns long, and its window never holds
      more than five. */
  lemma UnansweredIsAskedForEver(cfg: Config, i: nat, interval: nat, n: nat)
    returns (start: seq<Transition>, s: State, steps: seq<Transition>, t: State,
             turns: seq<TurnTransition>, es: seq<Entry>)
    requires Roomy(cfg, i, interval)
    ensures Reachable(cfg, start, s) && Inv(cfg, s) && Leads(cfg, s, steps, t) && !t.endgame
    ensures TurnsLead([], turns, es) && |turns| == n && SettledCount(turns) == 0
    ensures Grants(steps, Asked(turns)) && |Asked(turns)| == 5 * n && |es| <= MAX_BLOCKS_PER_REQUEST
  {
    hide Inv, Step, Leads, CeilDiv, ChunkLen, BlocksIn, Rounds;
    var ts := seq(BlocksIn(cfg.PieceLen(i)), b => if b == 0 then 0 else TIME_MIN);
    s := InFlight(cfg, i, ts);
    start := FirstAsk(cfg, i, ts);
    var now := Rounds(interval) * interval + REQUEST_TIMEOUT + 1;
    FirstRound(ts, now, interval);
    var ts';
    steps, ts', turns, es := TurnsAreFed(cfg, i, [], ts, 0, now, interval, n);
    t := InFlight(cfg, i, ts');
  }

  lemma FirstRound(ts: seq<int>, now: int, interval: nat)
    requires interval > 0 && 5 * Rounds(interval) <= |ts| && now == Rounds(interval) * interval + REQUEST_TIMEOUT + 1
    requires forall b :: 0 <= b < |ts| ==> ts[b] == if b == 0 then 0 else TIME_MIN
    ensures Ready(ts, 0, now, interval)
  {
    hide Rounds;
    var m := Rounds(interval);
    assert (0 - 0 + m) * interval == m * interval >= 0;
  }

  lemma FirstAsk(cfg: Config, i: nat, ts: seq<int>) returns (start: seq<Transition>)
    requires cfg.Ok() && i < cfg.PiecesCnt() && |ts| == BlocksIn(cfg.PieceLen(i))
    requires forall b :: 0 <= b < |ts| ==> ts[b] == if b == 0 then 0 else TIME_MIN
    ensures Reachable(cfg, start, InFlight(cfg, i, ts)) && Inv(cfg, InFlight(cfg, i, ts))
  {
    hide Inv, Step, Leads, CeilDiv, ChunkLen, BlocksIn, Quiet, Ask;
    InitIsQuiet(cfg);
    InitInv(cfg);
    StateSizes(cfg, Init(cfg));
    AskStarts(cfg, Init(cfg), i);
    var s := InFlight(cfg, i, ts);
    assert FreshPiece(cfg.PieceLen(i)).requestTime[0 := 0] == ts;
    assert s == Only(Init(cfg), i, Started(cfg.PieceLen(i)));
    StepKeepsInv(cfg, Init(cfg), Ask(cfg, i), s);
    EmptyLeads(cfg, s);
    LeadsCons(cfg, Init(cfg), Ask(cfg, i), s, [], s);
    start := [Transition(Ask(cfg, i), s)] + [];
  }

  /** Such torrents exist, at the pace of the loop: 100 ms and 255 blocks, or one timeout and ten. */
  lemma SomeAreRoomy()
    ensures Roomy(Config(255 * BLOCK_SIZE, 255 * BLOCK_SIZE, seq(SHA1_SIZE, _ => 0), REQUEST_TIMEOUT, NoDigest), 0, 100)
    ensures Roomy(Config(10 * BLOCK_SIZE, 10 * BLOCK_SIZE, seq(SHA1_SIZE, _ => 0), REQUEST_TIMEOUT, NoDigest), 0,
                  REQUEST_TIMEOUT)
  {
  }

  function NoDigest(data: seq<byte>): seq<byte> {
    []
  }
}
