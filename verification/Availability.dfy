/** How many running peers have each piece: the counters kept by the piece manager
    against the bitfields kept by the connections. */
module Availability {
  import opened Prelude
  import opened Engine

  /** A running connection: its bitfield, and whether a bitfield message has been counted in. */
  datatype Peer = Peer(bits: seq<bool>, counted: bool)

  datatype Swarm = Swarm(avail: seq<uint16>, peers: map<nat, Peer>)

  datatype PeerMessage =
    | Starts(id: nat, bits: seq<bool>)
    | SendsBitfield(id: nat, bits: seq<bool>)
    | SendsHave(id: nat, piece: nat)
    | Stops(id: nat)

  /** The message can occur: identities are fresh or known, sizes and indices are right. */
  predicate Enabled(s: Swarm, m: PeerMessage) {
    match m
    case Starts(id, bits) => id !in s.peers && |bits| == |s.avail|
    case SendsBitfield(id, bits) => id in s.peers && |bits| == |s.avail|
    case SendsHave(id, piece) => id in s.peers && piece < |s.avail| && |s.peers[id].bits| == |s.avail|
    case Stops(id) => id in s.peers && |s.peers[id].bits| == |s.avail|
  }

  /** What the connections do with their messages: a first or later run starts with whatever
      bits the connection object still holds; bitfield and have messages are counted in as
      they come; on leaving, the bits are counted out only if a bitfield message was seen. */
  function Next(s: Swarm, m: PeerMessage): Swarm
    requires Enabled(s, m)
  {
    match m
    case Starts(id, bits) => s.(peers := s.peers[id := Peer(bits, false)])
    case SendsBitfield(id, bits) =>
      Swarm(AdjustAvail(s.avail, bits, 1), s.peers[id := Peer(bits, true)])
    case SendsHave(id, piece) =>
      var p := s.peers[id];
      Swarm(s.avail[piece := (s.avail[piece] + 1) % TWO_TO_16], s.peers[id := p.(bits := p.bits[piece := true])])
    case Stops(id) =>
      Swarm(if s.peers[id].counted then AdjustAvail(s.avail, s.peers[id].bits, -1) else s.avail, s.peers - {id})
  }

  /** The running peers whose announced bitfield has bit i. */
  ghost function Owners(peers: map<nat, Peer>, i: nat): set<nat> {
    set id | id in peers && peers[id].counted && i < |peers[id].bits| && peers[id].bits[i]
  }

  /** Every counter is the number of owners, in 16-bit arithmetic. */
  ghost predicate Accurate(s: Swarm) {
    && (forall id :: id in s.peers ==> |s.peers[id].bits| == |s.avail|)
    && (forall i :: 0 <= i < |s.avail| ==> s.avail[i] == |Owners(s.peers, i)| % TWO_TO_16)
  }

  /** The protocol discipline: a have message names a piece the peer has not announced yet
      and comes after its bitfield; a second bitfield is harmless only if the first was empty. */
  predicate Disciplined(s: Swarm, m: PeerMessage)
    requires Enabled(s, m)
  {
    match m
    case Starts(_, _) => true
    case SendsBitfield(id, _) =>
      s.peers[id].counted ==> forall i :: 0 <= i < |s.peers[id].bits| ==> !s.peers[id].bits[i]
    case SendsHave(id, piece) => s.peers[id].counted && !s.peers[id].bits[piece]
    case Stops(_) => true
  }

  /** How one peer's entry contributes to the count of piece i. */
  function Share(p: Peer, i: nat): nat {
    if p.counted && i < |p.bits| && p.bits[i] then 1 else 0
  }

  lemma OwnersUpdate(peers: map<nat, Peer>, id: nat, p: Peer, i: nat)
    ensures |Owners(peers[id := p], i)|
         == |Owners(peers, i)| - (if id in peers then Share(peers[id], i) else 0) + Share(p, i)
  {
    var others := Owners(peers, i) - {id};
    assert Owners(peers[id := p], i) == if Share(p, i) == 1 then others + {id} else others;
    assert Owners(peers, i) == if id in peers && Share(peers[id], i) == 1 then others + {id} else others;
  }

  lemma OwnersRemove(peers: map<nat, Peer>, id: nat, i: nat)
    requires id in peers
    ensures |Owners(peers - {id}, i)| == |Owners(peers, i)| - Share(peers[id], i)
  {
    var others := Owners(peers, i) - {id};
    assert Owners(peers - {id}, i) == others;
    assert Owners(peers, i) == if Share(peers[id], i) == 1 then others + {id} else others;
  }

  /** The exact condition: one message keeps the counters accurate if and only if it is disciplined. */
  lemma AccurateIffDisciplined(s: Swarm, m: PeerMessage)
    requires Enabled(s, m) && Accurate(s)
    ensures Accurate(Next(s, m)) <==> Disciplined(s, m)
  {
    var t := Next(s, m);
    forall i | 0 <= i < |s.avail|
      ensures t.avail[i] == |Owners(t.peers, i)| % TWO_TO_16 <==> KeptAt(s, m, i)
    {
      OneCounter(s, m, i);
    }
    KeptEverywhere(s, m);
  }

  lemma KeptEverywhere(s: Swarm, m: PeerMessage)
    requires Enabled(s, m) && Accurate(s)
    ensures Disciplined(s, m) <==> forall i :: 0 <= i < |s.avail| ==> KeptAt(s, m, i)
  {
    if m.SendsHave? {
      assert KeptAt(s, m, m.piece) <==> Disciplined(s, m);
    } else if m.SendsBitfield? {
      var p := s.peers[m.id];
      forall i | 0 <= i < |s.avail| ensures KeptAt(s, m, i) <==> !p.counted || !p.bits[i] {
      }
      if !Disciplined(s, m) {
        var i :| 0 <= i < |p.bits| && p.bits[i];
        assert !KeptAt(s, m, i);
      }
    }
  }

  /** The condition, counter by counter. */
  predicate KeptAt(s: Swarm, m: PeerMessage, i: nat)
    requires Enabled(s, m)
  {
    match m
    case Starts(_, _) => true
    case SendsBitfield(id, _) => Share(s.peers[id], i) == 0
    case SendsHave(id, piece) => i == piece ==> s.peers[id].counted && !s.peers[id].bits[piece]
    case Stops(_) => true
  }

  lemma OneCounter(s: Swarm, m: PeerMessage, i: nat)
    requires Enabled(s, m) && Accurate(s) && i < |s.avail|
    ensures |Next(s, m).avail| == |s.avail|
    ensures Next(s, m).avail[i] == |Owners(Next(s, m).peers, i)| % TWO_TO_16 <==> KeptAt(s, m, i)
  {
    hide Owners;
    var c := |Owners(s.peers, i)|;
    match m
    case Starts(id, bits) => OwnersUpdate(s.peers, id, Peer(bits, false), i);
    case SendsBitfield(id, bits) =>
      OwnersUpdate(s.peers, id, Peer(bits, true), i);
      CounterMoves(c, if bits[i] then 1 else 0, Share(s.peers[id], i));
    case SendsHave(id, piece) =>
      var p := s.peers[id].(bits := s.peers[id].bits[piece := true]);
      OwnersUpdate(s.peers, id, p, i);
      CounterMoves(c, 1, 1 + Share(s.peers[id], i) - Share(p, i));
    case Stops(id) =>
      OwnersRemove(s.peers, id, i);
      var share: int := Share(s.peers[id], i);
      CounterMoves(c, -share, 0);
  }

  /** Moving a counter by k while the count moves by k - e keeps them equal exactly if e is 0. */
  lemma CounterMoves(c: nat, k: int, e: int)
    requires -1 <= k <= 1 && -1 <= e <= 1 && c + k - e >= 0
    ensures (c % TWO_TO_16 + k) % TWO_TO_16 == (c + k) % TWO_TO_16
    ensures (c + k) % TWO_TO_16 == (c + k - e) % TWO_TO_16 <==> e == 0
  {
  }

  // ----- what the connections do -------------------------------------------

  /** The swarm as the piece manager's counters and the connection of that peer show it. */
  ghost predicate Shows(w: Swarm, id: nat, avail: seq<uint16>, bits: seq<bool>, counted: bool) {
    w.avail == avail && id in w.peers && w.peers[id] == Peer(bits, counted) && |bits| == |avail|
  }

  /** A connection that handles a have message, by its contract, is a step of the swarm. */
  lemma HaveIsNext(w: Swarm, id: nat, s: State, bits: seq<bool>, counted: bool, piece: nat, s': State)
    requires Shows(w, id, s.avail, bits, counted) && CountsOneMore(s, piece, s')
    ensures Enabled(w, SendsHave(id, piece))
    ensures Shows(Next(w, SendsHave(id, piece)), id, s'.avail, bits[piece := true], counted)
  {
  }

  /** So is one that handles a bitfield message ... */
  lemma BitfieldIsNext(cfg: Config, w: Swarm, id: nat, s: State, bits: seq<bool>, counted: bool, bits': seq<bool>)
    requires Shows(w, id, s.avail, bits, counted) && |bits'| == |bits|
    ensures Enabled(w, SendsBitfield(id, bits'))
    ensures Shows(Next(w, SendsBitfield(id, bits')), id, CountPeer(cfg, s, bits', 1).avail, bits', true)
  {
  }

  /** ... and one that stops: its peer is gone, and its bits are counted out if they were counted in. */
  lemma StopIsNext(cfg: Config, w: Swarm, id: nat, s: State, bits: seq<bool>, counted: bool)
    requires Shows(w, id, s.avail, bits, counted)
    ensures Enabled(w, Stops(id))
    ensures Next(w, Stops(id))
         == Swarm((if counted then CountPeer(cfg, s, bits, -1) else s).avail, w.peers - {id})
  {
  }

  /** A connection that starts a run joins with the bits it still holds. */
  lemma StartIsNext(w: Swarm, id: nat, bits: seq<bool>)
    requires id !in w.peers && |bits| == |w.avail|
    ensures Enabled(w, Starts(id, bits)) && Shows(Next(w, Starts(id, bits)), id, w.avail, bits, false)
  {
  }

  /** A whole history of disciplined messages. */
  ghost predicate History(s: Swarm, ms: seq<PeerMessage>, t: Swarm)
    decreases |ms|
  {
    if ms == [] then t == s
    else Enabled(s, ms[0]) && Disciplined(s, ms[0]) && History(Next(s, ms[0]), ms[1..], t)
  }

  /** Counters start at zero and stay accurate, including after peers have left. */
  lemma {:induction false} HistoryStaysAccurate(s: Swarm, ms: seq<PeerMessage>, t: Swarm)
    requires Accurate(s) && History(s, ms, t)
    ensures Accurate(t)
    decreases |ms|
  {
    if ms != [] {
      AccurateIffDisciplined(s, ms[0]);
      HistoryStaysAccurate(Next(s, ms[0]), ms[1..], t);
    }
  }

  lemma FreshSwarmAccurate(n: nat)
    ensures Accurate(Swarm(seq(n, _ => 0), map[]))
  {
    forall i: nat ensures Owners(map[], i) == {} {
    }
  }

  /** After any disciplined history from the start, each counter is the number of running peers
      that have sent a bitfield message and announced the piece, modulo 2^16. */
  lemma CountersAre(n: nat, ms: seq<PeerMessage>, t: Swarm, i: nat)
    requires History(Swarm(seq(n, _ => 0), map[]), ms, t) && i < |t.avail|
    ensures t.avail[i] as int
         == |set id | id in t.peers && t.peers[id].counted && i < |t.peers[id].bits| && t.peers[id].bits[i]| % 0x1_0000
  {
    hide History, Next, Enabled, Disciplined;
    FreshSwarmAccurate(n);
    HistoryStaysAccurate(Swarm(seq(n, _ => 0), map[]), ms, t);
    assert Owners(t.peers, i)
      == set id | id in t.peers && t.peers[id].counted && i < |t.peers[id].bits| && t.peers[id].bits[i];
  }

  /** A peer that sends have messages without a bitfield, as the protocol allows, leaves its
      pieces counted forever. */
  lemma HaveWithoutBitfieldLeaks()
    ensures var s0 := Swarm([0], map[]);
            var s1 := Next(s0, Starts(0, [false]));
            var s2 := Next(s1, SendsHave(0, 0));
            var s3 := Next(s2, Stops(0));
      Accurate(s0) && Accurate(s1) && s3 == Swarm([1], map[]) && !Accurate(s3)
  {
    var s0 := Swarm([0], map[]);
    assert Owners(s0.peers, 0) == {};
    var s1 := Next(s0, Starts(0, [false]));
    assert Owners(s1.peers, 0) == {};
    var s3 := Next(Next(s1, SendsHave(0, 0)), Stops(0));
    assert s3.peers == map[];
  }
}
