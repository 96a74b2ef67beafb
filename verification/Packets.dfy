/** Packets, packet types and status codes (packet.h, packet.c, sx127x_err.h).

    A packet's `payload_length` field is the length of its payload, so it is not a field of its own. */
module Packets {

  datatype Option<+T> = None | Some(value: T)

  type byte = x: int | 0 <= x < 0x100
  type word = x: int | 0 <= x < 0x1_0000
  type Payload = s: seq<byte> | |s| <= 255

  /** sx127x_err_t */
  datatype Status = Ok | Timeout | InvalidState | InvalidArgument | InvalidCrc | Uninitialized | InvalidResponse | NoMem

  datatype PacketType = AckType | BeginType | EndType | DataType

  datatype Packet = Packet(dest: word, src: word, ackId: byte, seqNo: byte, payload: Payload)

  /** What duplicate detection compares. */
  datatype Key = Key(ackId: byte, seqNo: byte)

  function KeyOf(p: Packet): Key {
    Key(p.ackId, p.seqNo)
  }

  /** payload_length_max */
  const PAYLOAD_MAX := 8

  const SEQ_BEGIN: byte := 0
  const SEQ_END: byte := 255

  function TypeOf(p: Packet): PacketType {
    if p.seqNo == SEQ_BEGIN && p.payload == [] then BeginType
    else if p.seqNo == SEQ_END && p.payload == [] then EndType
    else if p.payload == [] then AckType
    else DataType
  }

  predicate CheckFeatures(p: Packet, src: word, dest: word, ackId: byte, seqNo: byte, t: PacketType) {
    p.src == src && p.dest == dest && p.ackId == ackId && p.seqNo == seqNo && TypeOf(p) == t
  }

  function AckPacket(dest: word, src: word, ackId: byte, seqNo: byte): Packet {
    Packet(dest, src, ackId, seqNo, [])
  }

  /** The acknowledgement the receiver builds for a packet: addresses mirrored, key kept. */
  function ReplyTo(p: Packet): Packet {
    AckPacket(p.src, p.dest, p.ackId, p.seqNo)
  }

  /** Does the sender of `frame`, expecting type `expected`, take `reply` as its acknowledgement? */
  predicate Accepts(frame: Packet, expected: PacketType, reply: Packet) {
    CheckFeatures(reply, frame.dest, frame.src, frame.ackId, frame.seqNo, expected)
  }

  /** What the scrubbed, all-zero receive buffer parses to. */
  const ZERO_PACKET := Packet(0, 0, 0, 0, [])

  /** The types, in numbers. */
  lemma TypeIff(p: Packet)
    ensures TypeOf(p) == BeginType <==> p.payload == [] && p.seqNo == 0
    ensures TypeOf(p) == EndType <==> p.payload == [] && p.seqNo == 255
    ensures TypeOf(p) == AckType <==> p.payload == [] && 0 < p.seqNo < 255
    ensures TypeOf(p) == DataType <==> p.payload != []
  {
  }

  /** A reply is accepted exactly when it is the receiver's own acknowledgement of the frame, which is empty, has the
      addresses exchanged and the key kept, and that acknowledgement is of the expected type; so no data packet is
      ever accepted for an empty type. */
  lemma AcceptsOnlyItsReply(frame: Packet, expected: PacketType, reply: Packet)
    requires expected != DataType
    ensures Accepts(frame, expected, reply) <==> reply == ReplyTo(frame) && TypeOf(ReplyTo(frame)) == expected
    ensures ReplyTo(frame) == Packet(frame.src, frame.dest, frame.ackId, frame.seqNo, [])
  {
    if Accepts(frame, expected, reply) {
      assert reply.payload == [];
    }
  }

  lemma Associative<T>(a: seq<T>, b: seq<T>, c: seq<T>)
    ensures (a + b) + c == a + (b + c)
  {
  }
}
