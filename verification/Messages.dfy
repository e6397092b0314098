/** The peer messages the client writes and reads: a four-byte length, one byte of
    id, and the payload, with numbers in network order ("peer messages", BEP 3). */
module Messages {
  import opened Prelude
  import opened Pools
  import opened Engine

  const REQUEST: byte := 6
  const CANCEL: byte := 8
  const KEEP_ALIVE: byte := 10
  /** A request or cancel message: length, id and three words. */
  const BLOCK_MESSAGE_SIZE: nat := 17

  // ----- network order -----------------------------------------------------

  /** The value with its four bytes in reverse. */
  function ByteSwap(v: nat): nat
    requires v < TWO_TO_32
  {
    var w := v / 256;
    var x := w / 256;
    ((v % 256 * 256 + w % 256) * 256 + x % 256) * 256 + x / 256
  }

  /** On a little-endian machine, network order is the swapped value. */
  function HostToNetworkOrder(v: nat): nat
    requires v < TWO_TO_32
  {
    ByteSwap(v)
  }

  function BigEndian(v: nat): (r: seq<byte>)
    requires v < TWO_TO_32
    ensures |r| == 4
  {
    var w := v / 256;
    var x := w / 256;
    [x / 256, x % 256, w % 256, v % 256]
  }

  function BigEndianValue(b: seq<byte>): (v: nat)
    requires |b| == 4
    ensures v < TWO_TO_32
  {
    var b0: int, b1: int, b2: int, b3: int := b[0], b[1], b[2], b[3];
    ((b0 * 256 + b1) * 256 + b2) * 256 + b3
  }

  /** What the swapped value looks like in memory is the big-endian encoding. */
  lemma NetworkOrderInMemory(v: nat)
    requires v < TWO_TO_32
    ensures LeBytes(HostToNetworkOrder(v), 4) == BigEndian(v)
  {
    hide LeBytes;
    var w := v / 256;
    var x := w / 256;
    var a: nat, b: nat, c: nat, d: nat := x / 256, x % 256, w % 256, v % 256;
    LeBytesStep((d * 256 + c) * 256 + b, a, 3);
    LeBytesStep(d * 256 + c, b, 2);
    LeBytesStep(d, c, 1);
    LeBytesStep(0, d, 0);
    NoBytes();
  }

  lemma LeBytesStep(high: nat, low: byte, n: nat)
    ensures LeBytes(high * 256 + low, n + 1) == [low] + LeBytes(high, n)
  {
    ByteSplit(high, low);
    var v := high * 256 + low;
    assert LeBytes(v, n + 1) == [v % 256] + LeBytes(v / 256, n);
  }

  lemma ByteSplit(high: nat, low: byte)
    ensures (high * 256 + low) / 256 == high && (high * 256 + low) % 256 == low
  {
  }

  lemma NoBytes()
    ensures LeBytes(0, 0) == []
  {
  }

  lemma LoadFour(b: seq<byte>)
    requires |b| == 4
    ensures var b0: int, b1: int, b2: int, b3: int := b[0], b[1], b[2], b[3];
      LeValue(b) == ((b3 * 256 + b2) * 256 + b1) * 256 + b0
  {
    assert LeValue(b) == b[0] + 256 * LeValue(b[1..]);
    assert LeValue(b[1..]) == b[1] + 256 * LeValue(b[1..][1..]) && b[1..][1..] == b[2..];
    assert LeValue(b[2..]) == b[2] + 256 * LeValue(b[2..][1..]) && b[2..][1..] == b[3..];
    assert LeValue(b[3..]) == b[3] + 256 * LeValue(b[3..][1..]) && b[3..][1..] == [];
  }

  lemma ByteSwapOf(a: nat, b: nat, c: nat, d: nat)
    requires a < 256 && b < 256 && c < 256 && d < 256
    ensures ByteSwap(((a * 256 + b) * 256 + c) * 256 + d) == ((d * 256 + c) * 256 + b) * 256 + a
  {
    var x := a * 256 + b;
    var w := x * 256 + c;
    var v := w * 256 + d;
    assert v / 256 == w && v % 256 == d;
    assert w / 256 == x && w % 256 == c;
    assert x / 256 == a && x % 256 == b;
  }

  /** Loading the four bytes and swapping gives the big-endian value. */
  lemma MemoryToNetworkOrder(b: seq<byte>)
    requires |b| == 4
    ensures LeValue(b) < TWO_TO_32 && HostToNetworkOrder(LeValue(b)) == BigEndianValue(b)
  {
    hide LeValue, ByteSwap;
    LoadFour(b);
    ByteSwapOf(b[3], b[2], b[1], b[0]);
  }

  lemma BigEndianRoundTrip(v: nat)
    requires v < TWO_TO_32
    ensures BigEndianValue(BigEndian(v)) == v
  {
  }

  // ----- the wire format and its parser ------------------------------------

  /** A message about one block: asking for it or cancelling the request. */
  datatype BlockMessage = BlockMessage(id: byte, block: Block)

  ghost predicate FitsWords(b: Block) {
    b.piece < TWO_TO_32 && b.offset < TWO_TO_32 && b.size < TWO_TO_32
  }

  function BlockPayload(b: Block): (r: seq<byte>)
    requires FitsWords(b)
    ensures |r| == 12
  {
    BigEndian(b.piece) + BigEndian(b.offset) + BigEndian(b.size)
  }

  function Wire(id: byte, payload: seq<byte>): (r: seq<byte>)
    requires |payload| + 1 < TWO_TO_32
    ensures |r| == 5 + |payload|
  {
    BigEndian(1 + |payload|) + [id] + payload
  }

  /** A receiver's view of a stream of block messages: split by length, then decoded. */
  function Decode(bytes: seq<byte>): Option<seq<BlockMessage>> {
    if bytes == [] then Some([])
    else if |bytes| < BLOCK_MESSAGE_SIZE || BigEndianValue(bytes[..4]) != 13 then None
    else
      var block := Block(BigEndianValue(bytes[5..9]), BigEndianValue(bytes[9..13]), BigEndianValue(bytes[13..17]));
      match Decode(bytes[17..])
      case None => None
      case Some(rest) => Some([BlockMessage(bytes[4], block)] + rest)
  }

  lemma DecodeOne(id: byte, b: Block, rest: seq<byte>)
    requires FitsWords(b)
    ensures Decode(Wire(id, BlockPayload(b)) + rest)
      == match Decode(rest) case None => None case Some(ms) => Some([BlockMessage(id, b)] + ms)
  {
    var bytes := Wire(id, BlockPayload(b)) + rest;
    assert bytes[..4] == BigEndian(13) && bytes[4] == id;
    assert bytes[5..9] == BigEndian(b.piece) && bytes[9..13] == BigEndian(b.offset);
    assert bytes[13..17] == BigEndian(b.size) && bytes[17..] == rest;
    BigEndianRoundTrip(13);
    BigEndianRoundTrip(b.piece);
    BigEndianRoundTrip(b.offset);
    BigEndianRoundTrip(b.size);
  }

  /** The bytes of a list of messages, one after the other. */
  ghost function Stream(id: byte, blocks: seq<Block>): (r: seq<byte>)
    requires forall b :: b in blocks ==> FitsWords(b)
    ensures |r| == BLOCK_MESSAGE_SIZE * |blocks|
  {
    if blocks == [] then []
    else Stream(id, blocks[..|blocks| - 1]) + Wire(id, BlockPayload(blocks[|blocks| - 1]))
  }

  function Messages(id: byte, blocks: seq<Block>): seq<BlockMessage> {
    seq(|blocks|, k requires 0 <= k < |blocks| => BlockMessage(id, blocks[k]))
  }

  /** A receiver reads back exactly the messages sent, for any number of them. */
  lemma {:induction false} StreamDecodes(id: byte, blocks: seq<Block>, rest: seq<byte>)
    requires forall b :: b in blocks ==> FitsWords(b)
    ensures Decode(Stream(id, blocks) + rest)
      == match Decode(rest) case None => None case Some(ms) => Some(Messages(id, blocks) + ms)
    decreases |blocks|
  {
    hide Decode, Wire, BlockPayload;
    if blocks == [] {
      assert Stream(id, blocks) + rest == rest;
      assert Decode(rest).Some? ==> Messages(id, blocks) + Decode(rest).value == Decode(rest).value;
    } else {
      var n := |blocks| - 1;
      var last := Wire(id, BlockPayload(blocks[n]));
      assert Stream(id, blocks) + rest == Stream(id, blocks[..n]) + (last + rest);
      StreamDecodes(id, blocks[..n], last + rest);
      DecodeOne(id, blocks[n], rest);
      if Decode(rest).Some? {
        var ms := Decode(rest).value;
        var m := BlockMessage(id, blocks[n]);
        assert Messages(id, blocks) + ms == Messages(id, blocks[..n]) + ([m] + ms);
      }
    }
  }

  // ----- writing messages into a buffer ------------------------------------

  method SerializeMessage(buffer: seq<byte>, at: nat, id: byte, payload: seq<byte>) returns (r: seq<byte>)
    requires at < |buffer| && |payload| + 1 < TWO_TO_32
    requires id != KEEP_ALIVE ==> at + 5 + |payload| <= |buffer|
    ensures r == if id == 10 then buffer[at := 0] else Splice(buffer, at, Wire(id, payload))
  {
    if id == KEEP_ALIVE {
      return buffer[at := 0];
    }
    var size := 1 + |payload|;
    NetworkOrderInMemory(size);
    r := Splice(buffer, at, LeBytes(HostToNetworkOrder(size), 4));
    r := r[at + 4 := id];
    r := Splice(r, at + 5, payload);
  }

  /** Shared by request and cancel messages, which differ in the id only. */
  method CreateBlockMessage(buffer: seq<byte>, at: nat, id: byte, b: Block) returns (r: seq<byte>)
    requires FitsWords(b) && at + BLOCK_MESSAGE_SIZE <= |buffer| && (id == REQUEST || id == CANCEL)
    ensures r == Splice(buffer, at, Wire(id, BlockPayload(b)))
  {
    var payload: seq<byte> := seq(12, _ => 0);
    NetworkOrderInMemory(b.piece);
    payload := Splice(payload, 0, LeBytes(HostToNetworkOrder(b.piece), 4));
    NetworkOrderInMemory(b.offset);
    payload := Splice(payload, 4, LeBytes(HostToNetworkOrder(b.offset), 4));
    NetworkOrderInMemory(b.size);
    payload := Splice(payload, 8, LeBytes(HostToNetworkOrder(b.size), 4));
    assert payload == BlockPayload(b);
    r := SerializeMessage(buffer, at, id, payload);
  }

  /** Appends room for one message and fills it in: the stream grows by that message. */
  method AppendBlockMessage(buffer: seq<byte>, ghost sent: seq<Block>, id: byte, b: Block) returns (r: seq<byte>)
    requires FitsWords(b) && (id == REQUEST || id == CANCEL) && forall x :: x in sent ==> FitsWords(x)
    requires buffer == Stream(id, sent)
    ensures forall x :: x in sent + [b] ==> FitsWords(x)
    ensures r == Stream(id, sent + [b])
  {
    var grown := buffer + seq(BLOCK_MESSAGE_SIZE, _ => 0);
    r := CreateBlockMessage(grown, |buffer|, id, b);
    assert (sent + [b])[..|sent|] == sent;
    assert r == buffer + Wire(id, BlockPayload(b));
  }

  // ----- reading messages --------------------------------------------------

  /** Piece index, block data and block offset of a piece message; too short a payload is refused. */
  function ParsePieceMessage(payload: seq<byte>): Option<(nat, seq<byte>, nat)> {
    if |payload| < 8 then None
    else
      MemoryToNetworkOrder(payload[..4]);
      MemoryToNetworkOrder(payload[4..8]);
      Some((HostToNetworkOrder(LeValue(payload[..4])), payload[8..], HostToNetworkOrder(LeValue(payload[4..8]))))
  }

  /** Exactly the payloads of the documented form are read, and they read back. */
  lemma PieceMessageRoundTrip(piece: nat, data: seq<byte>, offset: nat)
    requires piece < TWO_TO_32 && offset < TWO_TO_32
    ensures ParsePieceMessage(BigEndian(piece) + BigEndian(offset) + data) == Some((piece, data, offset))
  {
    var payload := BigEndian(piece) + BigEndian(offset) + data;
    assert payload[..4] == BigEndian(piece) && payload[4..8] == BigEndian(offset) && payload[8..] == data;
    MemoryToNetworkOrder(payload[..4]);
    MemoryToNetworkOrder(payload[4..8]);
    BigEndianRoundTrip(piece);
    BigEndianRoundTrip(offset);
  }

  // ----- bitfields ---------------------------------------------------------

  /** v >> n */
  function ShiftRight(v: nat, n: nat): nat {
    if n == 0 then v else ShiftRight(v / 2, n - 1)
  }

  /** Bit k of a byte, the most significant one first. */
  function BitOf(b: byte, k: nat): bool
    requires k < 8
  {
    ShiftRight(b, 7 - k) % 2 == 1
  }

  /** The first n bits of a bitfield payload. */
  method Unpack(payload: seq<byte>, n: nat) returns (bits: seq<bool>)
    requires n <= 8 * |payload|
    ensures |bits| == n && forall i :: 0 <= i < n ==> bits[i] == BitOf(payload[i / 8], i % 8)
  {
    bits := seq(n, _ => false);
    for i := 0 to n
      invariant |bits| == n && forall j :: 0 <= j < i ==> bits[j] == BitOf(payload[j / 8], j % 8)
    {
      bits := bits[i := BitOf(payload[i / 8], i % 8)];
    }
  }

  /** The number with the given bits, most significant first. */
  function FromBits(bits: seq<bool>): nat {
    if bits == [] then 0
    else 2 * FromBits(bits[..|bits| - 1]) + (if bits[|bits| - 1] then 1 else 0)
  }

  lemma {:induction false} BitOfFromBits(bits: seq<bool>, k: nat)
    requires k < |bits|
    ensures ShiftRight(FromBits(bits), |bits| - 1 - k) % 2 == 1 <==> bits[k]
  {
    var n := |bits| - 1;
    var init, last := FromBits(bits[..n]), if bits[n] then 1 else 0;
    Halve(init, last);
    assert FromBits(bits) == 2 * init + last;
    hide FromBits;
    if k < n {
      BitOfFromBits(bits[..n], k);
    }
  }

  lemma Halve(v: nat, bit: nat)
    requires bit < 2
    ensures (2 * v + bit) / 2 == v && (2 * v + bit) % 2 == bit
  {
  }

  function PackByte(bits: seq<bool>): (b: byte)
    requires |bits| == 8
  {
    FromBitsBound(bits, 8);
    FromBits(bits)
  }

  lemma {:induction false} FromBitsBound(bits: seq<bool>, n: nat)
    requires |bits| <= n <= 8
    ensures FromBits(bits) < [1, 2, 4, 8, 16, 32, 64, 128, 256][n]
  {
    if bits != [] {
      FromBitsBound(bits[..|bits| - 1], n - 1);
    }
  }

  /** A peer's encoding of its bits: whole bytes, spare bits at the end cleared. */
  function Pack(bits: seq<bool>): (payload: seq<byte>)
    ensures |bits| <= 8 * |payload| < |bits| + 8
  {
    if bits == [] then []
    else if |bits| < 8 then [PackByte(bits + seq(8 - |bits|, _ => false))]
    else [PackByte(bits[..8])] + Pack(bits[8..])
  }

  /** Unpacking inverts packing, for any number of bits. */
  lemma {:induction false} UnpackInvertsPack(bits: seq<bool>, i: nat)
    requires i < |bits|
    ensures BitOf(Pack(bits)[i / 8], i % 8) == bits[i]
    decreases |bits|
  {
    if |bits| < 8 {
      BitOfFromBits(bits + seq(8 - |bits|, _ => false), i);
    } else if i < 8 {
      BitOfFromBits(bits[..8], i);
    } else {
      UnpackInvertsPack(bits[8..], i - 8);
      assert (i - 8) / 8 == i / 8 - 1 && (i - 8) % 8 == i % 8;
    }
  }
}
