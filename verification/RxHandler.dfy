/** The receive handler's context structure (rx_packet_handler.c), updated in place and proved to follow
    `Handler.Step`. The user's two callbacks are the log of the calls made to them. */
module RxHandler {
  import opened Packets
  import opened PacketCells
  import H = Handler

  class RxHandler {
    var configured: bool
    var host: word
    var remote: word
    var capture: bool
    var captureAckId: byte
    var slots: array<PacketCell?>
    var capturedN: nat
    var lastAckId: byte
    var lastSeqNo: byte

    /** Callbacks made so far, in order. */
    ghost var calls: seq<H.Callback>
    /** This object, its slots, and every captured packet with its payload. */
    ghost var Repr: set<object>

    ghost predicate Valid()
      reads this, Repr
      ensures Valid() ==> this in Repr
    {
      && this in Repr && slots in Repr
      && slots.Length == H.CAPTURE_MAX && capturedN <= H.CAPTURE_MAX
      && (forall k | 0 <= k < capturedN ::
            && slots[k] != null && slots[k] in Repr && slots[k].payload in Repr && slots[k].Valid()
            && slots[k].ackId == captureAckId && slots[k].seqNo == k + 1 && slots[k].payload.Length > 0)
      && (forall j, k | 0 <= j < k < capturedN :: slots[j] != slots[k] && slots[j].payload != slots[k].payload)
      && (!capture ==> capturedN == 0 && captureAckId == 0)
    }

    /** The packets captured so far. */
    ghost function Captured(): (ps: seq<Packet>)
      requires Valid()
      reads this, Repr
      ensures |ps| == capturedN
    {
      seq(capturedN, k requires 0 <= k < capturedN reads this, Repr requires Valid() => slots[k].Value())
    }

    ghost function State(): (s: H.State)
      requires Valid()
      reads this, Repr
      ensures H.WellFormed(s)
    {
      H.State(configured, host, remote, capture, captureAckId, Captured(), Key(lastAckId, lastSeqNo))
    }

    /** rx_handler_init on any storage. */
    constructor (host: word, remote: word)
      ensures Valid() && fresh(Repr) && calls == []
      ensures State() == H.State(true, host, remote, false, 0, [], Key(0, 0)) == H.Initial(host, remote)
    {
      this.host, this.remote := host, remote;
      configured, capture, captureAckId, capturedN := true, false, 0, 0;
      lastAckId, lastSeqNo := 0, 0;
      slots := new PacketCell?[H.CAPTURE_MAX](i => null);
      calls := [];
      new;
      Repr := {this, slots};
    }

    /** A zeroed context that was never initialised. */
    constructor Unconfigured()
      ensures Valid() && fresh(Repr) && calls == []
      ensures State() == H.Initial(0, 0).(configured := false)
    {
      host, remote := 0, 0;
      configured, capture, captureAckId, capturedN := false, false, 0, 0;
      lastAckId, lastSeqNo := 0, 0;
      slots := new PacketCell?[H.CAPTURE_MAX](i => null);
      calls := [];
      new;
      Repr := {this, slots};
    }

    method SetRemote(remote: word)
      requires Valid()
      modifies this
      ensures Valid() && Repr == old(Repr) && calls == old(calls)
      ensures State() == old(State()).(remote := remote)
    {
      this.remote := remote;
    }

    method Reset()
      requires Valid()
      modifies this
      ensures Valid() && Repr == old(Repr) && slots == old(slots) && calls == old(calls)
      ensures State() == old(State()).(capture := false, captured := [], captureAckId := 0)
    {
      capture, capturedN, captureAckId := false, 0, 0;
    }

    /** rx_packet_handler. Only this object and its slots are written: the packet handed in is left alone, and
        what the handler keeps of it is fresh. */
    method Handle(rx: PacketCell?) returns (ret: H.Return)
      requires Valid() && (rx != null ==> rx.Valid())
      modifies this, slots
      ensures Valid() && fresh(Repr - old(Repr)) && slots == old(slots)
      ensures rx == null ==>
                && State() == old(State()) && calls == old(calls)
                && ret == if configured then H.NullPacket else H.NotConfigured
      ensures rx != null ==>
                var o := H.Step(old(State()), old(rx.Value()));
                State() == o.next && ret == o.ret && calls == old(calls) + o.calls
    {
      hide H.Dispatch;
      if !configured {
        return H.NotConfigured;
      }
      if rx == null {
        return H.NullPacket;
      }
      if rx.dest != host {
        return H.PacketRejected;
      }
      if rx.src != remote {
        return H.PacketRejected;
      }
      if rx.ackId == lastAckId && rx.seqNo == lastSeqNo {
        return H.PacketRedundant;
      }
      lastAckId := rx.ackId;
      lastSeqNo := rx.seqNo;
      assert Valid();
      assert Captured() == old(Captured());
      ret := Switch(rx);
    }

    /** The switch on the packet type. */
    method Switch(rx: PacketCell) returns (ret: H.Return)
      requires Valid() && rx.Valid()
      modifies this, slots
      ensures Valid() && fresh(Repr - old(Repr)) && slots == old(slots)
      ensures var o := H.Dispatch(old(State()), old(rx.Value()));
              State() == o.next && ret == o.ret && calls == old(calls) + o.calls
    {
      var t := CheckPacketType(rx);
      match t {
        case BeginType =>
          ret := OnBegin(rx.ackId);
        case DataType =>
          ret := OnData(rx);
        case EndType =>
          ret := OnEnd();
        case AckType =>
          ret := H.UnknownPacket;
      }
    }

    method OnBegin(ackId: byte) returns (ret: H.Return)
      requires Valid()
      modifies this
      ensures Valid() && Repr == old(Repr) && slots == old(slots) && calls == old(calls)
      ensures ret == if old(capture) then H.CaptureAlreadyOn else H.CaptureBegin
      ensures State() == if old(capture) then old(State())
                         else H.Cleared(old(State())).(capture := true, captureAckId := ackId)
    {
      if !capture {
        Reset();
        capture := true;
        captureAckId := ackId;
        ret := H.CaptureBegin;
      } else {
        ret := H.CaptureAlreadyOn;
      }
    }

    method OnEnd() returns (ret: H.Return)
      requires Valid()
      modifies this
      ensures Valid() && Repr == old(Repr) && slots == old(slots)
      ensures ret == if old(capture) then H.CaptureEnd else H.CaptureNotOn
      ensures State() == if old(capture) then H.Cleared(old(State())) else old(State())
      ensures calls == old(calls) + if old(capture) then [H.Delivered(old(Captured()))] else []
    {
      if !capture {
        return H.CaptureNotOn;
      }
      calls := calls + [H.Delivered(Captured())];
      Reset();
      ret := H.CaptureEnd;
    }

    method OnData(rx: PacketCell) returns (ret: H.Return)
      requires Valid() && rx.Valid() && rx.payload.Length > 0
      modifies this, slots
      ensures Valid() && fresh(Repr - old(Repr)) && slots == old(slots)
      ensures var o := H.Dispatch(old(State()), old(rx.Value()));
              State() == o.next && ret == o.ret && calls == old(calls) + o.calls
    {
      if capture && rx.ackId == captureAckId {
        if capturedN >= H.CAPTURE_MAX {
          return H.CaptureArrayFull;
        }
        if rx.seqNo != capturedN + 1 {
          return H.PacketRejected;
        }
        CaptureCopy(rx);
        return H.DataCaptured;
      }
      if rx.ackId != captureAckId {
        PassOn(rx);
        return H.CommandPacket;
      }
      ret := H.PacketRejected;
    }

    /** The command callback gets a copy of the packet. */
    method PassOn(rx: PacketCell)
      requires Valid() && rx.Valid()
      modifies `calls
      ensures Valid() && State() == old(State()) && calls == old(calls) + [H.Command(old(rx.Value()))]
    {
      var copy := Copy(rx);
      calls := calls + [H.Command(copy.Value())];
    }

    /** A copy of the packet becomes the next captured one. */
    method CaptureCopy(rx: PacketCell)
      requires Valid() && capturedN < H.CAPTURE_MAX && capture && rx.Valid()
      requires rx.ackId == captureAckId && rx.seqNo == capturedN + 1 && rx.payload.Length > 0
      modifies this, slots
      ensures Valid() && fresh(Repr - old(Repr)) && slots == old(slots) && calls == old(calls)
      ensures State() == old(State()).(captured := old(Captured()) + [old(rx.Value())])
    {
      var copy := Copy(rx);
      Append(copy);
    }

    method Append(copy: PacketCell)
      requires Valid() && capturedN < H.CAPTURE_MAX && capture
      requires copy.Valid() && copy !in Repr && copy.payload !in Repr
      requires copy.ackId == captureAckId && copy.seqNo == capturedN + 1 && copy.payload.Length > 0
      modifies this, slots
      ensures Valid() && Repr == old(Repr) + {copy, copy.payload} && slots == old(slots) && calls == old(calls)
      ensures State() == old(State()).(captured := old(Captured()) + [copy.Value()])
    {
      hide H.Step;
      slots[capturedN] := copy;
      capturedN := capturedN + 1;
      Repr := Repr + {copy, copy.payload};
      assert Captured() == old(Captured()) + [copy.Value()];
    }
  }
}
