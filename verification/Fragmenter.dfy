/** Fragmentation and reassembly on the heap (network_data_operations.c): the packet array built in a
    temporary buffer, shifted one slot up in place for the BEGIN packet, and copied out. */
module Fragmenter {
  import opened Packets
  import opened PacketCells
  import opened Fragments

  /** The cells of `buf` hold the packets `ps`. */
  ghost predicate Holds(buf: seq<PacketCell?>, ps: seq<Packet>)
    reads set c: PacketCell | c in buf
    reads set c: PacketCell | c in buf :: c.payload
  {
    && |buf| == |ps|
    && forall k | 0 <= k < |buf| :: buf[k] != null && buf[k].Valid() && buf[k].Value() == ps[k]
  }

  /** No cell and no payload buffer is shared. */
  ghost predicate Separate(buf: seq<PacketCell?>)
    requires null !in buf
    reads set c: PacketCell | c in buf
  {
    forall j, k | 0 <= j < k < |buf| :: buf[j] != buf[k] && buf[j].payload != buf[k].payload
  }

  /** One payload buffer: bytes `from` to `from + size` of `data`. */
  method Slice(data: array<byte>, from: nat, size: nat) returns (payload: array<byte>)
    requires from + size <= data.Length
    ensures fresh(payload) && payload[..] == data[from..from + size]
  {
    payload := new byte[size];
    forall i | 0 <= i < size {
      payload[i] := data[from + i];
    }
  }

  lemma SliceIsChunk(data: seq<byte>, dataLen: nat, i: nat, size: nat)
    requires dataLen <= |data| && i < FragmentCount(dataLen)
    requires PAYLOAD_MAX * i + size == Min(PAYLOAD_MAX * (i + 1), dataLen)
    ensures data[PAYLOAD_MAX * i..PAYLOAD_MAX * i + size] == Chunk(data[..dataLen], i)
  {
  }

  /** data_to_packet_array without the framing: fills `buf` from front to back. */
  method FillFragments(buf: array<PacketCell?>, data: array<byte>, dataLen: nat, r: Route, offset: nat)
    requires dataLen <= data.Length && buf.Length == FragmentCount(dataLen)
    modifies buf
    ensures Holds(buf[..], DataPackets(r, data[..dataLen], offset))
    ensures Separate(buf[..])
    ensures forall c: PacketCell | c in buf[..] :: fresh(c) && fresh(c.payload)
  {
    hide Chunk;
    ghost var blob := data[..dataLen];
    var bytesLeft := dataLen;
    for i := 0 to buf.Length
      invariant bytesLeft == if PAYLOAD_MAX * i < dataLen then dataLen - PAYLOAD_MAX * i else 0
      invariant data[..dataLen] == blob
      invariant forall k | 0 <= k < i ::
                  && buf[k] != null && fresh(buf[k]) && fresh(buf[k].payload) && buf[k].Valid()
                  && buf[k].Value() == Fragment(r, blob, offset, k)
      invariant forall j, k | 0 <= j < k < i :: buf[j] != buf[k] && buf[j].payload != buf[k].payload
    {
      var size := if bytesLeft < PAYLOAD_MAX then bytesLeft else PAYLOAD_MAX;
      var payload := Slice(data, PAYLOAD_MAX * i, size);
      SliceIsChunk(data[..], dataLen, i, size);
      assert payload[..] == data[..][PAYLOAD_MAX * i..PAYLOAD_MAX * i + size];
      var p := Construct(r.dest, r.src, r.ackId, (offset + i) % 256, payload);
      buf[i] := p;
      bytesLeft := bytesLeft - size;
    }
  }

  /** data_to_packet_array */
  method DataToPacketArray(callbackBuf: array<PacketCell?>, data: array<byte>, dataLen: nat, r: Route, framed: bool)
    returns (ret: int)
    requires dataLen <= data.Length
    requires |PacketArray(r, data[..dataLen], framed)| <= callbackBuf.Length
    modifies callbackBuf
    ensures ret == 0
    ensures var ps := PacketArray(r, data[..dataLen], framed);
            && Holds(callbackBuf[..|ps|], ps) && Separate(callbackBuf[..|ps|])
            && (forall c: PacketCell | c in callbackBuf[..|ps|] :: fresh(c) && fresh(c.payload))
            && callbackBuf[|ps|..] == old(callbackBuf[|ps|..])
  {
    hide PacketArray;
    var buf := BuildPackets(data, dataLen, r, framed);
    CopyOut(buf, callbackBuf);
    ret := 0;
  }

  /** The temporary buffer, filled and framed. */
  method BuildPackets(data: array<byte>, dataLen: nat, r: Route, framed: bool) returns (buf: array<PacketCell?>)
    requires dataLen <= data.Length
    ensures fresh(buf) && Holds(buf[..], PacketArray(r, data[..dataLen], framed)) && Separate(buf[..])
    ensures forall c: PacketCell | c in buf[..] :: fresh(c) && fresh(c.payload)
  {
    hide Chunk, Fragment, Holds, Separate;
    var n := FragmentCount(dataLen);
    buf := new PacketCell?[n](i => null);
    FillFragments(buf, data, dataLen, r, if framed then 1 else 0);
    if framed {
      buf := AddFraming(buf, r, DataPackets(r, data[..dataLen], 1));
    }
  }

  /** The framing of fragments already in the buffer. */
  method AddFraming(buf: array<PacketCell?>, r: Route, ghost ds: seq<Packet>) returns (framed: array<PacketCell?>)
    requires Holds(buf[..], ds) && Separate(buf[..])
    ensures fresh(framed)
    ensures Holds(framed[..], [Begin(r)] + ds + [End(r)]) && Separate(framed[..])
    ensures forall c: PacketCell | c in framed[..] :: c in buf[..] || (fresh(c) && fresh(c.payload))
  {
    ghost var cells := buf[..];
    ghost var begin, end;
    framed, begin, end := FrameCells(buf, r);
    HoldsAround(begin, cells, end, ds);
  }

  /** Room for two more, everything one slot up, BEGIN in front and END behind. */
  method FrameCells(buf: array<PacketCell?>, r: Route)
    returns (framed: array<PacketCell?>, ghost first: PacketCell, ghost last: PacketCell)
    ensures fresh(framed) && framed[..] == [first] + buf[..] + [last]
    ensures fresh(first) && fresh(first.payload) && first.Valid() && first.Value() == Begin(r)
    ensures fresh(last) && fresh(last.payload) && last.Valid() && last.Value() == End(r)
    ensures first != last && first.payload != last.payload
  {
    framed := Grow(buf, buf.Length + 2);
    ShiftUp(framed, buf.Length);
    var begin := ConstructAck(r.dest, r.src, r.ackId, SEQ_BEGIN);
    var end := ConstructAck(r.dest, r.src, r.ackId, SEQ_END);
    Close(framed, begin, end, buf[..]);
    return framed, begin, end;
  }

  method Close(framed: array<PacketCell?>, begin: PacketCell, end: PacketCell, ghost cells: seq<PacketCell?>)
    requires framed.Length == |cells| + 2 && framed[1..|cells| + 1] == cells
    modifies framed
    ensures framed[..] == [begin] + cells + [end]
  {
    framed[0] := begin;
    framed[framed.Length - 1] := end;
    assert framed[1..|cells| + 1] == cells;
  }

  lemma HoldsAround(first: PacketCell, cells: seq<PacketCell?>, last: PacketCell, ds: seq<Packet>)
    requires Holds(cells, ds) && Separate(cells) && first.Valid() && last.Valid()
    requires first != last && first.payload != last.payload
    requires forall c: PacketCell | c in cells ::
               c != first && c != last && c.payload != first.payload && c.payload != last.payload
    ensures Holds([first] + cells + [last], [first.Value()] + ds + [last.Value()])
    ensures Separate([first] + cells + [last])
  {
    var all := [first] + cells + [last];
    assert forall k | 0 < k <= |cells| :: all[k] == cells[k - 1] && cells[k - 1] in cells;
  }

  /** memcpy of the packet pointers. */
  method CopyOut(buf: array<PacketCell?>, callbackBuf: array<PacketCell?>)
    requires buf != callbackBuf && buf.Length <= callbackBuf.Length
    modifies callbackBuf
    ensures callbackBuf[..buf.Length] == buf[..]
    ensures callbackBuf[buf.Length..] == old(callbackBuf[buf.Length..])
  {
    forall i | 0 <= i < buf.Length {
      callbackBuf[i] := buf[i];
    }
  }

  /** realloc */
  method Grow(buf: array<PacketCell?>, size: nat) returns (grown: array<PacketCell?>)
    requires buf.Length <= size
    ensures fresh(grown) && grown.Length == size && grown[..buf.Length] == buf[..]
  {
    grown := new PacketCell?[size](i => null);
    forall i | 0 <= i < buf.Length {
      grown[i] := buf[i];
    }
  }

  /** memmove by one slot, over itself. */
  method ShiftUp(buf: array<PacketCell?>, n: nat)
    requires n < buf.Length
    modifies buf
    ensures buf[1..n + 1] == old(buf[..n])
    ensures buf[0] == old(buf[0]) && buf[n + 1..] == old(buf[n + 1..])
  {
    forall i | 0 <= i < n {
      buf[i + 1] := buf[i];
    }
  }

  /** packet_array_to_data */
  method PacketArrayToData(pBuf: array<PacketCell?>, data: array<byte>, len: nat, ghost ps: seq<Packet>)
    returns (ret: int)
    requires len <= pBuf.Length && PayloadsApart(pBuf, len, data) && Holds(pBuf[..len], ps)
    requires |Reassemble(ps)| <= data.Length
    modifies data
    ensures ret == 0
    ensures data[..] == Reassemble(ps) + old(data[|Reassemble(ps)|..])
  {
    hide PayloadsApart, Holds, Reassemble;
    var size := 0;
    ghost var before := data[..];
    ReassembleNothing(ps);
    ghost var n := |ps|;
    assert len == n by {
      HoldsAsMany(pBuf[..len], ps);
    }
    for i := 0 to len
      invariant size == |Reassemble(ps[..i])| <= |Reassemble(ps)|
      invariant PayloadsApart(pBuf, len, data) && Holds(pBuf[..len], ps)
      invariant data[..] == Reassemble(ps[..i]) + before[size..]
    {
      size := CopyNth(pBuf, data, len, i, size, ps, before);
    }
    assert ps[..len] == ps;
    ret := 0;
  }

  /** No packet has its payload in the buffer. */
  ghost predicate PayloadsApart(pBuf: array<PacketCell?>, len: nat, data: array<byte>)
    requires len <= pBuf.Length
    reads pBuf, set c: PacketCell | c in pBuf[..len]
  {
    forall c: PacketCell | c in pBuf[..len] :: c.payload != data
  }

  lemma HoldsAsMany(buf: seq<PacketCell?>, ps: seq<Packet>)
    requires Holds(buf, ps)
    ensures |buf| == |ps|
  {
  }

  /** One packet more. */
  method CopyNth(pBuf: array<PacketCell?>, data: array<byte>, len: nat, i: nat, size: nat, ghost ps: seq<Packet>,
                 ghost before: seq<byte>)
    returns (newSize: nat)
    requires i < len == |ps| <= pBuf.Length && PayloadsApart(pBuf, len, data) && Holds(pBuf[..len], ps)
    requires size == |Reassemble(ps[..i])| <= |Reassemble(ps)| <= data.Length == |before|
    requires data[..] == Reassemble(ps[..i]) + before[size..]
    modifies data
    ensures PayloadsApart(pBuf, len, data) && Holds(pBuf[..len], ps)
    ensures newSize == |Reassemble(ps[..i + 1])| <= |Reassemble(ps)|
    ensures data[..] == Reassemble(ps[..i + 1]) + before[newSize..]
  {
    hide Reassemble;
    ReassembleGrows(ps, i);
    var p := pBuf[..len][i];
    assert p.Value() == ps[i];
    Spliced(Reassemble(ps[..i]), ps[i].payload, before, data[..]);
    CopyInto(data, size, p.payload);
    newSize := size + p.payload.Length;
  }

  lemma Spliced(done: seq<byte>, next: seq<byte>, before: seq<byte>, whole: seq<byte>)
    requires |done| + |next| <= |before| && whole == done + before[|done|..]
    ensures whole[..|done|] + next + whole[|done| + |next|..] == done + next + before[|done| + |next|..]
  {
  }

  /** memcpy into the middle of a buffer. */
  method CopyInto(data: array<byte>, at: nat, payload: array<byte>)
    requires payload != data && at + payload.Length <= data.Length
    modifies data
    ensures data[..] == old(data[..at]) + payload[..] + old(data[at + payload.Length..])
  {
    forall i | 0 <= i < payload.Length {
      data[at + i] := payload[i];
    }
  }

  lemma ReassembleNothing(ps: seq<Packet>)
    ensures Reassemble(ps[..0]) == []
  {
  }

  lemma ReassembleGrows(ps: seq<Packet>, i: nat)
    requires i < |ps|
    ensures Reassemble(ps[..i + 1]) == Reassemble(ps[..i]) + ps[i].payload
    ensures |Reassemble(ps[..i + 1])| <= |Reassemble(ps)|
    decreases |ps|
  {
    var n := |ps| - 1;
    assert ps[..n + 1] == ps;
    if i < n {
      ReassembleGrows(ps[..n], i);
      assert ps[..n][..i] == ps[..i] && ps[..n][..i + 1] == ps[..i + 1];
    }
  }
}
