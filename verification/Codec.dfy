/** The byte layout of a frame (packet.c) as a pair of functions, and the reused static buffers. */
module Codec {
  import opened Packets

  const OVERHEAD := 7
  const BUFFER_SIZE := 255
  /** The longest payload whose frame fits the 255-byte static buffers. */
  const MAX_FRAME_PAYLOAD := BUFFER_SIZE - OVERHEAD

  function Encode(p: Packet): (frame: seq<byte>)
    ensures |frame| == OVERHEAD + |p.payload|
  {
    [p.dest / 256, p.dest % 256, p.src / 256, p.src % 256, p.ackId, p.seqNo, |p.payload|] + p.payload
  }

  /** The parser reads `raw[6]` payload bytes after the header, so these must be there. */
  predicate Parsable(raw: seq<byte>) {
    |raw| >= OVERHEAD && |raw| >= OVERHEAD + raw[6]
  }

  /** read_u16_be */
  function ReadWord(hi: byte, lo: byte): word {
    var h: int := hi;
    h * 256 + lo
  }

  function Decode(raw: seq<byte>): Packet
    requires Parsable(raw)
  {
    Packet(ReadWord(raw[0], raw[1]), ReadWord(raw[2], raw[3]), raw[4], raw[5], raw[OVERHEAD..OVERHEAD + raw[6]])
  }

  /** `front` written over the beginning of `buffer`, what lies behind it left alone. */
  function Overlay(front: seq<byte>, buffer: seq<byte>): (r: seq<byte>)
    requires |front| <= |buffer|
    ensures |r| == |buffer| && r[..|front|] == front && r[|front|..] == buffer[|front|..]
  {
    front + buffer[|front|..]
  }

  function Zeros(n: nat): (z: seq<byte>)
    ensures |z| == n && forall i | 0 <= i < n :: z[i] == 0
  {
    seq(n, i => 0)
  }

  /** The layout of a frame: both addresses with the high byte first, the key, the payload's length, the payload. */
  lemma FrameLayout(p: Packet)
    ensures var f := Encode(p);
            && |f| == 7 + |p.payload|
            && 256 * (f[0] as int) + f[1] == p.dest && 256 * (f[2] as int) + f[3] == p.src
            && f[4] == p.ackId && f[5] == p.seqNo && f[6] == |p.payload| && f[7..] == p.payload
  {
  }

  /** Whatever follows the frame in the buffer, parsing gives the packet back. */
  lemma DecodeEncode(p: Packet, rest: seq<byte>)
    ensures Parsable(Encode(p) + rest) && Decode(Encode(p) + rest) == p
  {
    var raw := Encode(p) + rest;
    assert raw[OVERHEAD..OVERHEAD + raw[6]] == p.payload;
  }

  /** Every parsable buffer begins with the frame of the packet parsed from it. */
  lemma EncodeDecode(raw: seq<byte>)
    requires Parsable(raw)
    ensures Encode(Decode(raw)) == raw[..OVERHEAD + raw[6]]
  {
    assert Encode(Decode(raw))[..OVERHEAD] == raw[..OVERHEAD];
  }

  lemma EncodeInjective(p: Packet, q: Packet)
    requires Encode(p) == Encode(q)
    ensures p == q
  {
    DecodeEncode(p, []);
    DecodeEncode(q, []);
  }

  /** What the receiver parses when `frame` arrives over its scrubbed buffer. */
  function Received(frame: seq<byte>): Packet
    requires |frame| <= BUFFER_SIZE && Parsable(Overlay(frame, Zeros(BUFFER_SIZE)))
  {
    Decode(Overlay(frame, Zeros(BUFFER_SIZE)))
  }

  lemma ReceivedEncode(p: Packet)
    requires |p.payload| <= 248
    ensures Parsable(Overlay(Encode(p), Zeros(BUFFER_SIZE))) && Received(Encode(p)) == p
  {
    DecodeEncode(p, Zeros(BUFFER_SIZE)[|Encode(p)|..]);
  }

  /** No frame at all: the scrubbed buffer itself is parsed. */
  lemma ReceivedNothing()
    ensures Parsable(Overlay([], Zeros(BUFFER_SIZE))) && Received([]) == ZERO_PACKET
  {
    var z := Overlay([], Zeros(BUFFER_SIZE));
    assert z[OVERHEAD..OVERHEAD + z[6]] == [];
  }

  /** Packets sent one after another through one never-cleared transmit buffer `tx`: each frame is written
      over what the earlier ones left, its first 7 + payload_length bytes go out, arrive over whatever the
      receive buffer `rx` holds, and are parsed; the receive buffer is then scrubbed. */
  ghost function Relay(tx: seq<byte>, rx: seq<byte>, ps: seq<Packet>): (heard: seq<Option<Packet>>)
    requires |tx| == |rx| == BUFFER_SIZE
    requires forall p | p in ps :: |p.payload| <= MAX_FRAME_PAYLOAD
    decreases |ps|
  {
    if ps == [] then []
    else
      var tx' := Overlay(Encode(ps[0]), tx);
      var rx' := Overlay(tx'[..OVERHEAD + |ps[0].payload|], rx);
      [if Parsable(rx') then Some(Decode(rx')) else None] + Relay(tx', Zeros(BUFFER_SIZE), ps[1..])
  }

  /** No stale byte of an earlier, longer frame is ever transmitted or parsed. */
  lemma {:induction false} RelayIsFaithful(tx: seq<byte>, rx: seq<byte>, ps: seq<Packet>)
    requires |tx| == |rx| == 255
    requires forall p | p in ps :: |p.payload| <= 248
    ensures Relay(tx, rx, ps) == seq(|ps|, i requires 0 <= i < |ps| => Some(ps[i]))
    decreases |ps|
  {
    if ps != [] {
      var tx' := Overlay(Encode(ps[0]), tx);
      DecodeEncode(ps[0], rx[|Encode(ps[0])|..]);
      RelayIsFaithful(tx', Zeros(BUFFER_SIZE), ps[1..]);
    }
  }
}
