/** What an application does, on the heap: fragment a blob and send it; put a delivered capture together. */
module Application {
  import opened Packets
  import opened PacketCells
  import opened Codec
  import opened Fragments
  import opened Fragmenter
  import opened Protocol
  import opened Stream
  import opened Device
  import opened Sending
  import opened RxHandler
  import H = Handler

  /** The packets of the burst, in an array of the size they need. */
  method BurstOf(data: array<byte>, r: Route) returns (pBuf: array<PacketCell?>)
    ensures fresh(pBuf) && Holds(pBuf[..], Framed(r, data[..]))
    ensures forall c: PacketCell | c in pBuf[..] :: fresh(c) && fresh(c.payload)
  {
    assert data[..data.Length] == data[..];
    pBuf := new PacketCell?[FragmentCount(data.Length) + 2](i => null);
    var _ := DataToPacketArray(pBuf, data, data.Length, r, true);
    assert pBuf[..|Framed(r, data[..])|] == pBuf[..];
  }

  /** Fragment a blob and send it as a burst. Whatever the radio does, success means that the blob had at most 254
      fragments, and that every one of its frames went on the air; on a platform that cooperates and answers every
      frame it succeeds. */
  method SendBlob(d: Device, data: array<byte>, r: Route) returns (ret: Status, ghost es: seq<RadioEvent>)
    requires d.Valid()
    modifies d, d.txBuffer, d.rxBuffer
    ensures d.Valid() && d.trace == old(d.trace) + es && d.air == old(d.air) + Aired(es)
    ensures var frames := Framed(r, old(data[..]));
            && SenderRun(frames, es).Some? && SenderRun(frames, es).value.result == Some(ret)
            && d.irqReads - old(d.irqReads) <= 16020 * |frames|
    ensures d.Cooperates() && Served(d, old(d.spiReads), Framed(r, old(data[..])), 0) ==> ret == Ok
    ensures ret == Ok ==>
              && data.Length <= 2032
              && forall f | f in Framed(r, old(data[..])) :: Encode(f) in Aired(es)
  {
    hide Chunk, DataPackets, Device.Cooperates, Fragment;
    ghost var blob := data[..];
    var pBuf := BurstOf(data, r);
    ghost var acked;
    ret, acked, es := SendBurst(d, pBuf, Framed(r, blob));
    BurstCanSucceedIff(r, blob);
    AcknowledgedFramesAired(Framed(r, blob), es);
  }

  /** Fragment without framing and reassemble: the blob comes back, whatever its length. */
  method FragmentAndReassemble(data: array<byte>, r: Route) returns (copy: array<byte>)
    ensures fresh(copy) && copy[..] == data[..]
  {
    hide Chunk, DataPackets, Fragment, Reassemble;
    ghost var blob := data[..];
    assert data[..data.Length] == blob;
    var n := FragmentCount(data.Length);
    var pBuf := new PacketCell?[n](i => null);
    var _ := DataToPacketArray(pBuf, data, data.Length, r, false);
    ghost var ps := PacketArray(r, blob, false);
    assert pBuf[..|ps|] == pBuf[..];
    copy := new byte[data.Length](i => 0);
    RoundTrip(r, blob, 0);
    var _ := PacketArrayToData(pBuf, copy, n, ps);
  }

  /** The example's end callback, on the handler's slots as they are when it is called: the size of the payloads
      added up, a buffer with room for a terminator, the data. */
  method OnBurstComplete(slots: array<PacketCell?>, n: nat, ghost ps: seq<Packet>) returns (buf: array<byte>)
    requires n <= slots.Length && Holds(slots[..n], ps)
    ensures fresh(buf) && buf[..] == Reassemble(ps) + [0]
  {
    hide Reassemble, PacketCell.Valid;
    var total := 0;
    ReassembleNothing(ps);
    for i := 0 to n
      invariant total == |Reassemble(ps[..i])|
    {
      ReassembleGrows(ps, i);
      assert slots[..n][i].Value() == ps[i];
      total := total + slots[..n][i].payload.Length;
    }
    assert ps[..n] == ps;
    buf := new byte[total + 1](i => 0);
    var _ := PacketArrayToData(slots, buf, n, ps);
    buf[total] := 0;
  }

  /** What the handler's slots hold is its capture. */
  lemma SlotsHoldTheCapture(h: RxHandler)
    requires h.Valid()
    ensures Holds(h.slots[..h.capturedN], h.Captured())
  {
  }

  /** A handler that has captured all fragments of a blob: the callback gets the blob back from its slots. */
  method DeliverBlob(h: RxHandler, r: Route, ghost data: seq<byte>) returns (buf: array<byte>)
    requires h.Valid() && h.Captured() == DataPackets(r, data, 1)
    ensures fresh(buf) && buf[..] == data + [0]
  {
    SlotsHoldTheCapture(h);
    RoundTrip(r, data, 1);
    buf := OnBurstComplete(h.slots, h.capturedN, h.Captured());
  }
}
