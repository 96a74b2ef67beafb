/** The `packet` structure on the heap, with its payload buffer, and the operations that allocate, fill and
    serialise it (packet.c). A NULL payload is an empty array. */
module PacketCells {
  import opened Packets
  import opened Codec

  class PacketCell {
    var dest: word
    var src: word
    var ackId: byte
    var seqNo: byte
    var payload: array<byte>

    ghost predicate Valid()
      reads this
    {
      payload.Length <= 255
    }

    ghost function Value(): Packet
      requires Valid()
      reads this, payload
    {
      Packet(dest, src, ackId, seqNo, payload[..])
    }

    /** Takes over the payload buffer it is given. */
    constructor (dest: word, src: word, ackId: byte, seqNo: byte, payload: array<byte>)
      requires payload.Length <= 255
      ensures Valid() && this.payload == payload
      ensures Value() == Packet(dest, src, ackId, seqNo, payload[..])
    {
      this.dest, this.src, this.ackId, this.seqNo, this.payload := dest, src, ackId, seqNo, payload;
    }
  }

  /** packet_constructor: NULL for a payload longer than eight bytes. */
  method Construct(dest: word, src: word, ackId: byte, seqNo: byte, payload: array<byte>) returns (p: PacketCell?)
    requires payload.Length <= 255
    ensures p == null <==> payload.Length > 8
    ensures p != null ==>
              && fresh(p) && p.Valid() && p.payload == payload
              && p.Value() == Packet(dest, src, ackId, seqNo, payload[..])
  {
    if payload.Length > PAYLOAD_MAX {
      return null;
    }
    p := new PacketCell(dest, src, ackId, seqNo, payload);
  }

  /** ack_packet */
  method ConstructAck(dest: word, src: word, ackId: byte, seqNo: byte) returns (p: PacketCell)
    ensures fresh(p) && fresh(p.payload) && p.Valid()
    ensures p.Value() == AckPacket(dest, src, ackId, seqNo)
  {
    var empty := new byte[0];
    p := new PacketCell(dest, src, ackId, seqNo, empty);
  }

  /** copy_packet: neither the copy nor its payload is shared with anything. */
  method Copy(p: PacketCell) returns (q: PacketCell)
    requires p.Valid()
    ensures fresh(q) && fresh(q.payload) && q.Valid() && q.Value() == p.Value()
  {
    var payload := new byte[p.payload.Length];
    forall i | 0 <= i < p.payload.Length {
      payload[i] := p.payload[i];
    }
    assert payload[..] == p.payload[..];
    q := new PacketCell(p.dest, p.src, p.ackId, p.seqNo, payload);
  }

  /** parse_packet: overwrites `p`, giving it a payload buffer of its own; returns the bytes consumed. */
  method Parse(raw: array<byte>, p: PacketCell) returns (size: nat)
    requires Parsable(raw[..])
    modifies p
    ensures p.Valid() && fresh(p.payload)
    ensures p.Value() == Decode(raw[..])
    ensures size == |Encode(p.Value())|
  {
    var length := raw[6];
    var payload := new byte[length];
    forall i | 0 <= i < length {
      payload[i] := raw[OVERHEAD + i];
    }
    assert payload[..] == raw[..][OVERHEAD..OVERHEAD + length];
    p.payload := payload;
    p.dest := ReadWord(raw[0], raw[1]);
    p.src := ReadWord(raw[2], raw[3]);
    p.ackId, p.seqNo := raw[4], raw[5];
    size := OVERHEAD + length;
  }

  /** packet_to_bytestream: the frame over the front of the buffer, the rest of the buffer untouched; -1 and no
      write at all when the frame does not fit. */
  method ToBytestream(buffer: array<byte>, p: PacketCell) returns (size: int)
    requires p.Valid() && p.payload != buffer
    modifies buffer
    ensures size == if buffer.Length < |Encode(p.Value())| then -1 else |Encode(p.Value())|
    ensures size == -1 ==> buffer[..] == old(buffer[..])
    ensures size != -1 ==> buffer[..] == Overlay(Encode(p.Value()), old(buffer[..]))
  {
    if buffer.Length < OVERHEAD + p.payload.Length {
      return -1;
    }
    PutHeader(buffer, p);
    forall i | 0 <= i < p.payload.Length {
      buffer[OVERHEAD + i] := p.payload[i];
    }
    size := OVERHEAD + p.payload.Length;
    assert buffer[..size] == Encode(p.Value());
  }

  /** Its first seven bytes. */
  method PutHeader(buffer: array<byte>, p: PacketCell)
    requires p.Valid() && p.payload != buffer && buffer.Length >= OVERHEAD
    modifies buffer
    ensures buffer[..OVERHEAD] == Encode(p.Value())[..OVERHEAD] && buffer[OVERHEAD..] == old(buffer[OVERHEAD..])
  {
    buffer[0], buffer[1] := p.dest / 256, p.dest % 256;
    buffer[2], buffer[3] := p.src / 256, p.src % 256;
    buffer[4], buffer[5], buffer[6] := p.ackId, p.seqNo, p.payload.Length;
  }

  /** check_packet_type */
  method CheckPacketType(p: PacketCell) returns (t: PacketType)
    requires p.Valid()
    ensures t == TypeOf(p.Value())
  {
    if p.seqNo == SEQ_BEGIN && p.payload.Length == 0 {
      return BeginType;
    }
    if p.seqNo == SEQ_END && p.payload.Length == 0 {
      return EndType;
    }
    if p.payload.Length == 0 {
      return AckType;
    }
    return DataType;
  }

  /** check_packet_features, as the sender calls it on a reply. */
  method CheckReply(reply: PacketCell, p: PacketCell, expected: PacketType) returns (accepted: bool)
    requires reply.Valid() && p.Valid()
    ensures accepted <==> Accepts(p.Value(), expected, reply.Value())
  {
    if reply.src != p.dest {
      return false;
    }
    if reply.dest != p.src {
      return false;
    }
    if reply.ackId != p.ackId {
      return false;
    }
    if reply.seqNo != p.seqNo {
      return false;
    }
    var t := CheckPacketType(reply);
    return t == expected;
  }
}
