/** The receive loop on the device (sx127x_rx_utils.c): one packet structure reused for every reception, each
    packet acknowledged first and handled afterwards; proved to follow the receiver automaton. */
module Receiving {
  import opened Packets
  import opened PacketCells
  import opened Codec
  import opened Protocol
  import opened Device
  import opened RxHandler
  import H = Handler

  /** Nothing the loop writes to between two packets belongs to the handler. */
  ghost predicate Apart(d: Device, h: RxHandler, rx: PacketCell)
    reads h, rx
  {
    && d !in h.Repr && d.txBuffer !in h.Repr && d.rxBuffer !in h.Repr
    && rx !in h.Repr && rx.payload !in h.Repr
    && rx.payload != d.txBuffer && rx.payload != d.rxBuffer
  }

  /** The receiver as the automaton sees it. */
  ghost function AsReceiver(h: RxHandler, phase: RxPhase): Receiver
    requires h.Valid()
    reads h, h.Repr
  {
    Receiver(h.State(), h.calls, phase)
  }

  lemma {:induction false} ReceiverAppend(r: Receiver, es: seq<RxEvent>, us: seq<RxEvent>)
    ensures ReceiverRun(r, es + us)
              == match ReceiverRun(r, es) case None => None case Some(q) => ReceiverRun(q, us)
    ensures AtRadio(es + us) == AtRadio(es) + AtRadio(us)
    decreases |us|
  {
    if us == [] {
      assert es + us == es;
    } else {
      var n := |us| - 1;
      ReceiverAppend(r, es, us[..n]);
      ReceiverSnoc(r, es + us[..n], us[n]);
      assert es + us[..n] + [us[n]] == es + us;
    }
  }

  /** The first half: a packet parsed into the reused structure, its acknowledgement sent. */
  method HearAndReply(d: Device, rx: PacketCell) returns (ret: Status, ghost aired: bool, ghost base: byte)
    requires d.Valid() && rx.Valid()
    modifies d, d.txBuffer, d.rxBuffer, rx
    ensures d.Valid() && rx.Valid() && fresh(rx.payload)
    ensures d.irqReads >= old(d.irqReads)
    ensures d.trace == old(d.trace) + [Listen(Got(rx.Value())), Transmit(Encode(ReplyTo(rx.Value())), aired, ret)]
    ensures ReplyTo(rx.Value()) == Packet(rx.src, rx.dest, rx.ackId, rx.seqNo, [])
    ensures old(d.spi) <= d.spi
    ensures ret == Ok ==>
              && aired
              && d.spi == old(d.spi) + d.ReadScript(old(d.spiWrites), old(d.irqReads), old(d.spiReads))
                          + [SpiWrite(0x12, [0xFF])]
                          + LoadScript(base, Encode(ReplyTo(rx.Value()))) + TransmitScript(false)
    ensures d.polls == old(d.polls) + if aired then [Poll(0x08, 0x83)] else []
    ensures rx.Value() == d.Heard(old(d.spiWrites), old(d.irqReads), old(d.spiReads))
    ensures d.Cooperates() ==> ret == Ok
  {
    hide Decode, Device.Cooperates, Device.Heard, Device.LoadResult, Device.ReadResult, Device.ReadScript,
         Device.SendResult, Encode, LoadScript, Overlay, Received, TransmitScript, Zeros;
    ret := d.ReadLastPacket(rx);
    base := d.ReadByte(d.spiReads);
    var ack := ConstructAck(rx.src, rx.dest, rx.ackId, rx.seqNo);
    ghost var w, r := d.spiWrites, d.spiReads;
    ret, aired := d.SendPacket(ack, false);
    d.IfCooperating(w, d.irqReads, r);
  }

  /** One packet: heard, acknowledged, handled. None: go on; otherwise the error that ends the loop. */
  method ReceiveOne(d: Device, h: RxHandler, rx: PacketCell) returns (stop: Option<Status>, ghost us: seq<RxEvent>)
    requires d.Valid() && h.Valid() && rx.Valid() && Apart(d, h, rx)
    modifies d, d.txBuffer, d.rxBuffer, rx, h, h.slots
    ensures d.Valid() && h.Valid() && rx.Valid() && Apart(d, h, rx) && h.slots == old(h.slots)
    ensures fresh(h.Repr - old(h.Repr)) && fresh(rx.payload)
    ensures d.trace == old(d.trace) + AtRadio(us)
    ensures ReceiverRun(old(AsReceiver(h, Listening)), us)
              == Some(AsReceiver(h, if stop.Some? then Stopped(stop.value) else Listening))
    ensures stop != Some(Ok) && d.irqReads >= old(d.irqReads)
    ensures stop == None ==> HandledCount(us) == 1
    ensures us != [] && us[0] == Radio(Listen(Got(d.Heard(old(d.spiWrites), old(d.irqReads), old(d.spiReads)))))
    ensures d.Cooperates() ==> stop == None
    ensures d.polls == old(d.polls) || d.polls == old(d.polls) + [Poll(0x08, 0x83)]
    ensures stop == None ==> d.polls == old(d.polls) + [Poll(0x08, 0x83)]
    ensures old(d.spi) <= d.spi
  {
    hide AtRadio, Decode, Device.Heard, Device.Sane, Encode, H.Step, HandledCount, Overlay, ReceiverRun,
         Received, Zeros;
    ghost var r0 := AsReceiver(h, Listening);
    ghost var aired, base;
    var ret;
    ret, aired, base := HearAndReply(d, rx);
    assert AsReceiver(h, Listening) == r0;
    us := ExchangeEvents(rx.Value(), aired, ret);
    HeardAndReplied(r0, rx.Value(), aired, ret);
    if ret != Ok {
      return Some(ret), us;
    }
    var _ := h.Handle(rx);
    PacketHandled(r0, rx.Value(), aired);
    us := us + [Handled];
    return None, us;
  }

  function ExchangeEvents(p: Packet, aired: bool, status: Status): seq<RxEvent> {
    [Radio(Listen(Got(p))), Radio(Transmit(Encode(ReplyTo(p)), aired, status))]
  }

  lemma HeardAndReplied(r: Receiver, p: Packet, aired: bool, status: Status)
    requires r.phase == Listening && (status == Ok ==> aired)
    ensures AtRadio(ExchangeEvents(p, aired, status)) == [Listen(Got(p)), Transmit(Encode(ReplyTo(p)), aired, status)]
    ensures ReceiverRun(r, ExchangeEvents(p, aired, status))
              == Some(r.(phase := if status == Ok then Handling(p) else Stopped(status)))
  {
    hide AtRadio, Encode, H.Step, ReceiverRun;
    var heard := Radio(Listen(Got(p)));
    var replied := Radio(Transmit(Encode(ReplyTo(p)), aired, status));
    NothingYet(r);
    ReceiverSnoc(r, [], heard);
    assert [] + [heard] == [heard];
    assert AtRadio([heard]) == [heard.e] by {
      assert [] + [heard.e] == [heard.e];
    }
    ReceiverSnoc(r, [heard], replied);
    assert [heard] + [replied] == [heard, replied];
    assert [heard.e] + [replied.e] == [heard.e, replied.e];
  }

  lemma PacketHandled(r: Receiver, p: Packet, aired: bool)
    requires r.phase == Listening && aired
    ensures var us := ExchangeEvents(p, aired, Ok) + [Handled];
            var o := H.Step(r.handler, p);
            && AtRadio(us) == AtRadio(ExchangeEvents(p, aired, Ok)) && HandledCount(us) == 1
            && us[0] == Radio(Listen(Got(p)))
            && ReceiverRun(r, us) == Some(Receiver(o.next, r.calls + o.calls, Listening))
  {
    hide H.Step;
    var us := ExchangeEvents(p, aired, Ok);
    HeardAndReplied(r, p, aired, Ok);
    ReceiverSnoc(r, us, Handled);
    OneHandled(us[0].e, us[1].e);
    assert AtRadio(us) + [] == AtRadio(us);
  }

  /** IRQ reads `from` to `to - 1` that failed. */
  ghost function Failures(d: Device, from: nat, to: nat): nat {
    if to <= from then 0 else Failures(d, from, to - 1) + (if d.irq(to - 1).status != Ok then 1 else 0)
  }

  lemma {:induction false} FailuresAppend(d: Device, a: nat, b: nat, c: nat)
    requires a <= b <= c
    ensures Failures(d, a, c) == Failures(d, a, b) + Failures(d, b, c)
  {
    if b < c {
      FailuresAppend(d, a, b, c - 1);
    }
  }

  lemma {:induction false} AFailureCounts(d: Device, a: nat, n: nat, c: nat)
    requires a <= n < c && d.irq(n).status != Ok
    ensures Failures(d, a, c) >= 1
  {
    if n < c - 1 {
      AFailureCounts(d, a, n, c - 1);
    }
  }

  /** Packets handled. */
  function HandledCount(es: seq<RxEvent>): nat {
    if es == [] then 0 else HandledCount(es[..|es| - 1]) + (if es[|es| - 1] == Handled then 1 else 0)
  }

  lemma {:induction false} HandledCountAppend(es: seq<RxEvent>, us: seq<RxEvent>)
    ensures HandledCount(es + us) == HandledCount(es) + HandledCount(us)
    decreases |us|
  {
    if us == [] {
      assert es + us == es;
    } else {
      HandledCountAppend(es, us[..|us| - 1]);
      assert (es + us)[..|es + us| - 1] == es + us[..|us| - 1];
    }
  }

  /** How a round of the loop ends. */
  datatype RoundEnd = OnePacket | WaitFailed | StillWaiting | RadioFailed | AckFailed

  /** One round of the loop. A packet that is signalled is heard, acknowledged and handled; the only other ends are a
      wait that failed or is still going on, a write that failed, and an acknowledgement that could not be sent. */
  method Round(d: Device, h: RxHandler, rx: PacketCell, patience: nat)
    returns (ret: Option<Status>, end: RoundEnd, ghost us: seq<RxEvent>)
    requires d.Valid() && h.Valid() && rx.Valid() && Apart(d, h, rx)
    modifies d, d.txBuffer, d.rxBuffer, rx, h, h.slots
    ensures d.Valid() && h.Valid() && rx.Valid() && Apart(d, h, rx) && h.slots == old(h.slots)
    ensures fresh(h.Repr - old(h.Repr)) && (rx.payload == old(rx.payload) || fresh(rx.payload))
    ensures d.trace == old(d.trace) + AtRadio(us)
    ensures ret.Some? <==> end == RadioFailed || end == AckFailed
    ensures ReceiverRun(old(AsReceiver(h, Listening)), us)
              == Some(AsReceiver(h, if end == AckFailed then Stopped(ret.value) else Listening))
    ensures d.irqReads >= old(d.irqReads)
    ensures match end
            case OnePacket => HandledCount(us) == 1
            case WaitFailed => us == [] && Failures(d, old(d.irqReads), d.irqReads) >= 1
            case StillWaiting => us == [] && d.irqReads == old(d.irqReads) + patience
            case RadioFailed => us == [] && ret != Some(Ok) && LastWriteFailed(d, ret)
            case AckFailed => ret != Some(Ok)
    ensures old(d.spi) + WaitScript(d, old(d.spiWrites)) <= d.spi
    ensures PolledIn(old(d.polls), d.polls, 0x85)
    ensures match end
            case OnePacket => d.polls == old(d.polls) + [Poll(0x40, 0x85)] + [Poll(0x08, 0x83)]
            case WaitFailed => d.polls == old(d.polls) + [Poll(0x40, 0x85)]
            case StillWaiting => d.polls == old(d.polls) + [Poll(0x40, 0x85)]
            case RadioFailed => d.polls == old(d.polls) && d.irqReads == old(d.irqReads)
            case AckFailed => old(d.polls) + [Poll(0x40, 0x85)] <= d.polls
    ensures d.Cooperates() && patience > 0 ==> end == OnePacket
  {
    hide AtRadio, Decode, Device.Cooperates, Device.Heard, Device.Sane, Encode, Failures, HandledCount,
         LastWriteFailed, Overlay, Received, ReceiverRun, WaitScript, Zeros;
    us := [];
    NothingYet(AsReceiver(h, Listening));
    assert d.trace + [] == d.trace;
    ret, end := Wait(d, patience);
    if end != OnePacket {
      return;
    }
    ret, us := ReceiveOne(d, h, rx);
    end := if ret.Some? then AckFailed else OnePacket;
  }

  lemma NothingYet(r: Receiver)
    ensures ReceiverRun(r, []) == Some(r) && AtRadio([]) == [] && HandledCount([]) == 0
  {
  }

  lemma OneHandled(heard: RadioEvent, replied: RadioEvent)
    ensures HandledCount([Radio(heard), Radio(replied)] + [Handled]) == 1
  {
    var us := [Radio(heard), Radio(replied)];
    assert us[..1][..0] == [] && (us + [Handled])[..2] == us;
    assert HandledCount(us[..1]) == 0 && HandledCount(us) == 0;
  }

  /** The flags cleared, then continuous reception switched on, with the `w`-th write and the next; the second only if
      the first succeeds. */
  ghost function WaitScript(d: Device, w: nat): seq<SpiWrite> {
    if d.spiWrite(w) == Ok then [SpiWrite(0x12, [0xFF]), SpiWrite(0x01, [0x85])] else [SpiWrite(0x12, [0xFF])]
  }

  /** The error is that of the last write made. */
  ghost predicate LastWriteFailed(d: Device, ret: Option<Status>)
    reads d
  {
    d.spiWrites > 0 && ret == Some(d.spiWrite(d.spiWrites - 1)) && ret != Some(Ok)
  }

  /** The part of a round before a packet is read: the radio is listening, in continuous reception, whenever the loop
      polls for a packet. */
  method Wait(d: Device, patience: nat) returns (ret: Option<Status>, end: RoundEnd)
    requires d.Valid()
    modifies d
    ensures d.Valid() && d.trace == old(d.trace) && d.irqReads >= old(d.irqReads)
    ensures ret.Some? <==> end == RadioFailed
    ensures ret != Some(Ok)
    ensures match end
            case OnePacket => d.irqReads > old(d.irqReads) && d.Flagged(d.irqReads - 1, RX_DONE)
            case WaitFailed => Failures(d, old(d.irqReads), d.irqReads) >= 1
            case StillWaiting => d.irqReads == old(d.irqReads) + patience
            case RadioFailed => d.irqReads == old(d.irqReads)
            case AckFailed => false
    ensures end == RadioFailed <==> d.spiWrite(old(d.spiWrites)) != Ok || d.spiWrite(old(d.spiWrites) + 1) != Ok
    ensures end == RadioFailed ==> LastWriteFailed(d, ret)
    ensures d.spi == old(d.spi) + WaitScript(d, old(d.spiWrites))
    ensures d.polls == old(d.polls) + if end == RadioFailed then [] else [Poll(0x40, 0x85)]
    ensures end != RadioFailed ==>
              var delays := d.irqReads - old(d.irqReads) - (if end == StillWaiting then 0 else 1);
              d.now - old(d.now) >= 1000 * delays && (d.NoLag() ==> d.now - old(d.now) == 1000 * delays)
    ensures d.Cooperates() && patience > 0 ==> end == OnePacket
  {
    hide Device.NoLag, Device.Sane, LastMode, LastWriteFailed, WaitScript, Zeros;
    end := RadioFailed;
    ret := StartWaiting(d);
    if ret.Some? {
      return;
    }
    ghost var before := d.irqReads;
    var waited := d.PollNoTimeout(1, RX_DONE, false, patience);
    Device.TimesIsProduct(d.irqReads - before - (if waited.Some? then 1 else 0), 1);
    if d.Cooperates() && patience > 0 {
      d.CooperationSucceeds(0, d.irqReads - 1, 0);
      assert d.Flagged(d.irqReads - 1, RX_DONE) && !d.Undecided(d.irqReads - 1, RX_DONE);
      assert waited == Some(Ok);
    }
    if waited == None {
      return None, StillWaiting;
    }
    if waited.value != Ok {
      AFailureCounts(d, before, d.irqReads - 1, d.irqReads);
      return None, WaitFailed;
    }
    return None, OnePacket;
  }

  /** The two writes before the wait; None when both succeed. */
  method StartWaiting(d: Device) returns (failed: Option<Status>)
    modifies d
    ensures d.Valid() == old(d.Valid()) && d.trace == old(d.trace) && d.polls == old(d.polls)
    ensures d.irqReads == old(d.irqReads) && d.now == old(d.now)
    ensures failed.Some? <==> d.spiWrite(old(d.spiWrites)) != Ok || d.spiWrite(old(d.spiWrites) + 1) != Ok
    ensures failed.Some? ==> LastWriteFailed(d, failed) && failed != Some(Ok)
    ensures d.spi == old(d.spi) + WaitScript(d, old(d.spiWrites))
    ensures failed == None ==> LastMode(d.spi) == 0x85
  {
    hide LastMode;
    var status := d.ClearIrq();
    if status != Ok {
      return Some(status);
    }
    status := d.SwitchMode(LORA_RX_CONTINUOUS);
    LastModeAfter(old(d.spi) + [CLEAR_IRQ], LORA_RX_CONTINUOUS);
    Associative(old(d.spi), [CLEAR_IRQ], [SetMode(LORA_RX_CONTINUOUS)]);
    return if status != Ok then Some(status) else None;
  }

  /** The loop's first write; None when it succeeds. */
  method BeginListening(d: Device) returns (failed: Option<Status>)
    modifies d
    ensures d.Valid() == old(d.Valid()) && d.trace == old(d.trace) && d.polls == old(d.polls)
    ensures d.irqReads == old(d.irqReads) && d.spi == old(d.spi) + [SpiWrite(0x01, [0x85])]
    ensures failed.Some? ==> LastWriteFailed(d, failed)
    ensures failed == if d.spiWrite(old(d.spiWrites)) == Ok then None else Some(d.spiWrite(old(d.spiWrites)))
  {
    var status := d.SwitchMode(LORA_RX_CONTINUOUS);
    return if status != Ok then Some(status) else None;
  }

  /** start_rx_loop, watched for at most `rounds` rounds and `patience` IRQ reads in each wait. The handler's state
      and callbacks are what the receiver automaton makes of the events: no packet is handled that was not
      acknowledged before, reusing `rx` never alters what was captured earlier, and every round that is not spent on
      a failed wait handles a packet; on a platform that cooperates every round does. Whenever the loop polls for a
      packet, the mode last written is continuous reception (0x85), and whenever it polls for the end of a
      transmission, transmission (0x83). */
  method StartRxLoop(d: Device, h: RxHandler, rounds: nat, patience: nat)
    returns (ret: Option<Status>, ghost end: RoundEnd, ghost es: seq<RxEvent>)
    requires d.Valid() && h.Valid() && d !in h.Repr && d.txBuffer !in h.Repr && d.rxBuffer !in h.Repr
    modifies d, d.txBuffer, d.rxBuffer, h, h.slots
    ensures d.Valid() && h.Valid()
    ensures d.trace == old(d.trace) + AtRadio(es)
    ensures ret.Some? <==> end == RadioFailed || end == AckFailed
    ensures ReceiverRun(old(AsReceiver(h, Listening)), es)
              == Some(AsReceiver(h, if end == AckFailed then Stopped(ret.value) else Listening))
    ensures end == OnePacket || end == WaitFailed ==>
              HandledCount(es) <= rounds <= HandledCount(es) + Failures(d, old(d.irqReads), d.irqReads)
    ensures d.Cooperates() && patience > 0 ==> ret == None && HandledCount(es) == rounds
    ensures end == RadioFailed ==> LastWriteFailed(d, ret)
    ensures old(d.spi) + [SpiWrite(0x01, [0x85])] <= d.spi
    ensures PolledIn(old(d.polls), d.polls, 0x85)
    ensures end == OnePacket || end == WaitFailed ==> |d.polls| == |old(d.polls)| + rounds + HandledCount(es)
  {
    hide AtRadio, Decode, Device.Heard, Device.Sane, Encode, Failures, HandledCount, LastWriteFailed, NextReceiver,
         Overlay, PolledIn, Received, ReceiverRun, WaitScript, Zeros;
    ghost var r0 := AsReceiver(h, Listening);
    var rx := ConstructAck(0, 0, 0, 0);
    es, end, ret := [], OnePacket, None;
    NothingYet(r0);
    assert d.trace + [] == d.trace;
    NoPolls(d.polls, 0x85);
    ret := BeginListening(d);
    if ret.Some? {
      end := RadioFailed;
      return;
    }
    for i := 0 to rounds
      invariant d.Valid() && h.Valid() && rx.Valid() && Apart(d, h, rx)
      invariant fresh(rx) && fresh(rx.payload) && fresh(h.Repr - old(h.Repr)) && h.slots == old(h.slots)
      invariant d.trace == old(d.trace) + AtRadio(es)
      invariant ReceiverRun(r0, es) == Some(AsReceiver(h, Listening))
      invariant ret == None && (end == OnePacket || end == WaitFailed)
      invariant d.irqReads >= old(d.irqReads)
      invariant d.Cooperates() && patience > 0 ==> HandledCount(es) == i
      invariant old(d.spi) + [SpiWrite(0x01, [0x85])] <= d.spi
      invariant PolledIn(old(d.polls), d.polls, 0x85)
      invariant |d.polls| == |old(d.polls)| + i + HandledCount(es)
      invariant HandledCount(es) <= i <= HandledCount(es) + Failures(d, old(d.irqReads), d.irqReads)
    {
      ghost var us;
      ghost var before, polls := d.irqReads, d.polls;
      var how;
      ret, how, us := Round(d, h, rx, patience);
      end := how;
      ReceiverAppend(r0, es, us);
      Associative(old(d.trace), AtRadio(es), AtRadio(us));
      HandledCountAppend(es, us);
      PolledInAppend(old(d.polls), polls, d.polls, 0x85);
      FailuresAppend(d, old(d.irqReads), before, d.irqReads);
      es := es + us;
      if ret.Some? || how == StillWaiting {
        return;
      }
    }
  }
}
