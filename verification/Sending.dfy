/** The sending half on the device (sx127x_utils.c): nested, bounded retry loops proved to follow the sender
    automaton event by event. */
module Sending {
  import opened Packets
  import opened PacketCells
  import opened Codec
  import opened Protocol
  import opened Device

  /** PHY_TIMEOUT_MSEC */
  const PHY_TIMEOUT := 3000

  // IRQ reads one attempt can cost: 1002 polling for TxDone, 3002 polling for RxDone, one before the FIFO is read;
  // hence the 4005 below, and the 16020 for the four attempts of a frame.

  /** ceilf(timeout / PHY_TIMEOUT_MSEC) */
  function Attempts(timeout: int): int {
    (timeout + PHY_TIMEOUT - 1) / PHY_TIMEOUT
  }

  /** As many attempts of three seconds as cover the timeout, and none for no timeout. */
  lemma AttemptsCoverTheTimeout(timeout: int)
    ensures timeout > 0 ==> 3000 * (Attempts(timeout) - 1) < timeout <= 3000 * Attempts(timeout)
    ensures timeout <= 0 ==> Attempts(timeout) <= 0
  {
  }

  /** The frames among `es` that went on the air. */
  function Aired(es: seq<RadioEvent>): seq<seq<byte>> {
    if es == [] then []
    else
      var e := es[|es| - 1];
      Aired(es[..|es| - 1]) + (if e.Transmit? && e.aired then [e.frame] else [])
  }

  lemma AiredSnoc(es: seq<RadioEvent>, e: RadioEvent)
    ensures Aired(es + [e]) == Aired(es) + (if e.Transmit? && e.aired then [e.frame] else [])
  {
    assert (es + [e])[..|es|] == es;
  }

  lemma {:induction false} AiredAppend(es: seq<RadioEvent>, us: seq<RadioEvent>)
    ensures Aired(es + us) == Aired(es) + Aired(us)
    decreases |us|
  {
    if us == [] {
      assert es + us == es;
    } else {
      AiredAppend(es, us[..|us| - 1]);
      assert (es + us)[..|es + us| - 1] == es + us[..|us| - 1];
    }
  }

  /** Every acknowledged frame went on the air. */
  lemma {:induction false} AcknowledgedFramesAired(frames: seq<Packet>, es: seq<RadioEvent>)
    requires SenderRun(frames, es).Some?
    ensures var s := SenderRun(frames, es).value;
            && s.acked <= |frames| && s.frames == frames
            && (forall i | 0 <= i < s.acked :: Encode(frames[i]) in Aired(es))
            && (s.exchange.awaiting && s.acked < |frames| ==> Encode(frames[s.acked]) in Aired(es))
    decreases |es|
  {
    if es != [] {
      AcknowledgedFramesAired(frames, es[..|es| - 1]);
      SenderShape(frames, es);
    }
  }

  /** `es` is what happened since the logs were `trace0` and `air0`. */
  predicate Logged(trace: seq<RadioEvent>, air: seq<seq<byte>>, trace0: seq<RadioEvent>, air0: seq<seq<byte>>,
                   es: seq<RadioEvent>)
  {
    trace == trace0 + es && air == air0 + Aired(es)
  }

  lemma LoggedAppend(trace: seq<RadioEvent>, air: seq<seq<byte>>, trace0: seq<RadioEvent>, air0: seq<seq<byte>>,
                     es: seq<RadioEvent>, us: seq<RadioEvent>)
    requires Logged(trace, air, trace0, air0, es)
    ensures Logged(trace + us, air + Aired(us), trace0, air0, es + us)
  {
    AiredAppend(es, us);
    Associative(trace0, es, us);
    Associative(air0, Aired(es), Aired(us));
  }

  /** What one attempt leaves in the log when it settles on `verdict`. */
  predicate AttemptEvents(f: Packet, expected: PacketType, us: seq<RadioEvent>, verdict: Option<Status>) {
    if verdict.Some? && verdict != Some(Ok) then
      |us| == 1 && us[0].Transmit? && us[0].frame == Encode(f) && us[0].status == verdict.value
    else
      && |us| == 2 && us[0] == Transmit(Encode(f), true, Ok) && us[1].Listen?
      && (IsAcceptance(f, expected, us[1]) <==> verdict == Some(Ok))
  }

  /** One attempt in the automaton. */
  lemma ExchangeAttempt(f: Packet, expected: PacketType, limit: int, es: seq<RadioEvent>, i: nat,
                        us: seq<RadioEvent>, verdict: Option<Status>)
    requires i < limit && ExchangeRun(f, expected, limit, es) == Some(Exchange(i, false, None))
    requires AttemptEvents(f, expected, us, verdict)
    ensures ExchangeRun(f, expected, limit, es + us) == Some(
              match verdict
              case None => Exchange(i + 1, false, if i + 1 >= limit then Some(Timeout) else None)
              case Some(status) => Exchange(i, status == Ok, verdict))
  {
    hide Accepts, Encode, ExchangeRun;
    ExchangeSnoc(f, expected, limit, es, us[0]);
    if |us| == 1 {
      assert us == [us[0]];
    } else {
      ExchangeSnoc(f, expected, limit, es + [us[0]], us[1]);
      Associative(es, [us[0]], [us[1]]);
      assert us == [us[0]] + [us[1]];
    }
  }

  /** On a platform that cooperates, the packet received with the reads from the `r`-th on is taken for the
      acknowledgement of `f`. */
  ghost predicate Answered(d: Device, r: nat, f: Packet, expected: PacketType)
    requires d.Sane()
  {
    Accepts(f, expected, d.Heard(0, 0, r))
  }

  /** It is when these reads give the length and the bytes of the acknowledgement, if that has the expected type. */
  lemma ReplyAnswers(d: Device, r: nat, f: Packet, expected: PacketType)
    requires d.Sane() && d.Cooperates() && TypeOf(ReplyTo(f)) == expected
    requires d.spiRead(r).data == [7] && d.spiRead(r + 2).data == Encode(ReplyTo(f))
    ensures Answered(d, r, f, expected)
  {
    d.CooperationHears(0, 0, r, ReplyTo(f));
  }

  /** Of the attempts at `f` that begin with the `r`-th read, four reads each, the `k`-th is the first answered. */
  ghost predicate AnsweredAt(d: Device, r: nat, f: Packet, expected: PacketType, k: nat)
    requires d.Sane()
  {
    Answered(d, r + 4 * k + 1, f, expected) && forall j | 0 <= j < k :: !Answered(d, r + 4 * j + 1, f, expected)
  }

  /** The body of the retry loop: send, wait, judge the reply heard in this attempt. */
  method Attempt(d: Device, p: PacketCell, rx: PacketCell, ackType: PacketType)
    returns (verdict: Option<Status>, ghost us: seq<RadioEvent>)
    requires d.Valid() && p.Valid() && p.payload != d.txBuffer && p.payload != d.rxBuffer
    requires rx.Valid() && rx != p && rx.payload != d.txBuffer && rx.payload != d.rxBuffer
    modifies d, d.txBuffer, d.rxBuffer, rx
    ensures d.Valid() && p.Valid() && p.Value() == old(p.Value())
    ensures rx.Valid() && (rx.payload == old(rx.payload) || fresh(rx.payload))
    ensures Logged(d.trace, d.air, old(d.trace), old(d.air), us)
    ensures AttemptEvents(p.Value(), ackType, us, verdict)
    ensures d.Cooperates() && |Encode(p.Value())| <= 255 ==>
              && d.spiReads == old(d.spiReads) + 4
              && verdict == if Answered(d, old(d.spiReads) + 1, p.Value(), ackType) then Some(Ok) else None
    ensures |us| == 2 ==>
              && |Encode(p.Value())| <= 255
              && old(d.spi) + LoadScript(d.ReadByte(old(d.spiReads)), Encode(p.Value())) + TransmitScript(true)
                 + [SpiWrite(0x01, [0x86])] <= d.spi
    ensures PolledIn(old(d.polls), d.polls, 0x86)
    ensures d.irqReads - old(d.irqReads) <= 4005
  {
    hide Answered, Decode, Device.Cooperates, Device.Heard, Device.LoadResult, Device.SendResult,
         Device.WaitResult, Encode, LoadScript, Overlay, PolledIn, Received, TransmitScript, Zeros;
    ghost var aired;
    var ret;
    ret, aired := d.SendPacket(p, true);
    ghost var sent := Transmit(Encode(p.Value()), aired, ret);
    AiredOne(sent);
    d.IfCooperating(old(d.spiWrites), d.irqReads, old(d.spiReads));
    ghost var sentPolls := d.polls;
    TransmitPolls(old(d.polls), aired, 0x86);
    if ret != Ok {
      return Some(ret), [sent];
    }
    ghost var heard;
    verdict, heard := AwaitReply(d, p, rx, ackType);
    AiredTwo(sent, heard);
    PolledInAppend(old(d.polls), sentPolls, d.polls, 0x86);
    us := [sent, heard];
  }

  /** The waiting half. */
  method AwaitReply(d: Device, p: PacketCell, rx: PacketCell, ackType: PacketType)
    returns (verdict: Option<Status>, ghost heard: RadioEvent)
    requires d.Valid() && p.Valid() && p.payload != d.txBuffer && p.payload != d.rxBuffer
    requires rx.Valid() && rx != p && rx.payload != d.txBuffer && rx.payload != d.rxBuffer
    modifies d, d.rxBuffer, rx
    ensures d.Valid() && p.Valid() && p.Value() == old(p.Value())
    ensures rx.Valid() && (rx.payload == old(rx.payload) || fresh(rx.payload))
    ensures heard.Listen? && d.trace == old(d.trace) + [heard] && d.air == old(d.air)
    ensures verdict == if IsAcceptance(p.Value(), ackType, heard) then Some(Ok) else None
    ensures d.Cooperates() ==>
              && d.spiReads == old(d.spiReads) + 3
              && verdict == if Answered(d, old(d.spiReads), p.Value(), ackType) then Some(Ok) else None
    ensures old(d.spi) + [SpiWrite(0x01, [0x86])] <= d.spi && PolledIn(old(d.polls), d.polls, 0x86)
    ensures (heard.reply.Silence? && d.spiWrite(old(d.spiWrites)) == Ok
             && d.irqReads > 0 && d.Undecided(d.irqReads - 1, 0x40)) ==>
              heard.reply.status == Timeout && d.TimedOut(old(d.now), old(d.irqReads), 3000, 1)
    ensures d.irqReads - old(d.irqReads) <= 3003
  {
    hide Decode, Device.Cooperates, Device.FrameRead, Device.Heard, Device.Polled, Device.ReadResult,
         Device.Sane, Device.TimedOut, Device.Undecided, Device.WaitResult, Encode, Overlay, Received, Zeros;
    ghost var polled;
    var ret;
    ret, polled := d.PollAndReadPacket(rx, PHY_TIMEOUT);
    d.IfCooperating(old(d.spiWrites), polled, old(d.spiReads));
    heard := Listen(if ret == Ok then Got(rx.Value()) else Silence(ret));
    if ret != Ok {
      return None, heard;
    }
    var accepted := CheckReply(rx, p, ackType);
    if !accepted {
      return None, heard;
    }
    return Some(Ok), heard;
  }

  lemma AiredOne(e: RadioEvent)
    ensures Aired([e]) == if e.Transmit? && e.aired then [e.frame] else []
  {
    AiredSnoc([], e);
    assert [] + [e] == [e];
  }

  lemma AiredTwo(e: RadioEvent, heard: RadioEvent)
    requires heard.Listen?
    ensures Aired([e, heard]) == Aired([e])
  {
    AiredSnoc([e], heard);
    assert [e] + [heard] == [e, heard];
  }

  /** On a platform that cooperates, with the `next`-th read to come: success with the first attempt answered, four
      reads for each attempt up to it, and a timeout when none of the first `limit` is. */
  ghost predicate Retried(d: Device, r: nat, f: Packet, expected: PacketType, limit: int, ret: Status, next: nat)
    requires d.Sane()
  {
    d.Cooperates() && |Encode(f)| <= 255 ==>
      && (forall k: nat | k < limit && AnsweredAt(d, r, f, expected, k) :: ret == Ok && next == r + 4 * (k + 1))
      && ((forall k: nat | k < limit :: !Answered(d, r + 4 * k + 1, f, expected)) ==> ret == Timeout)
  }

  /** The same after `i` attempts in vain. */
  ghost predicate InVain(d: Device, r: nat, f: Packet, expected: PacketType, i: nat, next: nat)
    requires d.Sane()
  {
    d.Cooperates() && |Encode(f)| <= 255 ==>
      next == r + 4 * i && forall j | 0 <= j < i :: !Answered(d, r + 4 * j + 1, f, expected)
  }

  lemma OneMoreAttempt(d: Device, r: nat, f: Packet, expected: PacketType, limit: int, i: nat, r1: nat, r2: nat,
                       verdict: Option<Status>)
    requires d.Sane() && i < limit && InVain(d, r, f, expected, i, r1)
    requires d.Cooperates() && |Encode(f)| <= 255 ==>
               r2 == r1 + 4 && verdict == if Answered(d, r1 + 1, f, expected) then Some(Ok) else None
    ensures verdict == None ==> InVain(d, r, f, expected, i + 1, r2)
    ensures verdict.Some? ==> Retried(d, r, f, expected, limit, verdict.value, r2)
  {
    hide Answered, Device.Cooperates, Device.Sane, Encode;
  }

  lemma NoneYet(d: Device, r: nat, f: Packet, expected: PacketType)
    requires d.Sane()
    ensures InVain(d, r, f, expected, 0, r)
  {
  }

  lemma AllInVain(d: Device, r: nat, f: Packet, expected: PacketType, limit: int, i: nat, r1: nat)
    requires d.Sane() && i >= limit && InVain(d, r, f, expected, i, r1)
    ensures Retried(d, r, f, expected, limit, Timeout, r1)
  {
    hide Answered, Device.Cooperates, Device.Sane, Encode;
  }

  /** send_packet_ensure_ack. What it returns is what the exchange automaton makes of the events it caused. */
  method SendPacketEnsureAck(d: Device, p: PacketCell, timeout: int, ackType: PacketType)
    returns (ret: Status, ghost es: seq<RadioEvent>)
    requires d.Valid() && p.Valid() && p.payload != d.txBuffer && p.payload != d.rxBuffer
    modifies d, d.txBuffer, d.rxBuffer
    ensures d.Valid() && p.Valid() && p.Value() == old(p.Value())
    ensures Logged(d.trace, d.air, old(d.trace), old(d.air), es)
    ensures ExchangeRun(p.Value(), ackType, Attempts(timeout), es).Some?
    ensures ExchangeRun(p.Value(), ackType, Attempts(timeout), es).value.result == Some(ret)
    ensures Retried(d, old(d.spiReads), p.Value(), ackType, Attempts(timeout), ret, d.spiReads)
    ensures PolledIn(old(d.polls), d.polls, 0x86)
    ensures |d.spi| >= 2 && d.spi[|d.spi| - 2..] == [CLEAR_IRQ, SetMode(LORA_SLEEP)]
    ensures d.irqReads - old(d.irqReads) <= 4005 * (if Attempts(timeout) < 0 then 0 else Attempts(timeout))
  {
    hide Answered, AnsweredAt, Device.Cooperates, Encode, ExchangeRun, Zeros;
    ret, es := Retry(d, p, Attempts(timeout), ackType);
    var _ := d.ClearIrq();
    var _ := d.SwitchMode(LORA_SLEEP);
  }

  /** Its loop. */
  method Retry(d: Device, p: PacketCell, limit: int, ackType: PacketType)
    returns (ret: Status, ghost es: seq<RadioEvent>)
    requires d.Valid() && p.Valid() && p.payload != d.txBuffer && p.payload != d.rxBuffer
    modifies d, d.txBuffer, d.rxBuffer
    ensures d.Valid() && p.Valid() && p.Value() == old(p.Value())
    ensures Logged(d.trace, d.air, old(d.trace), old(d.air), es)
    ensures ExchangeRun(p.Value(), ackType, limit, es).Some?
    ensures ExchangeRun(p.Value(), ackType, limit, es).value.result == Some(ret)
    ensures Retried(d, old(d.spiReads), p.Value(), ackType, limit, ret, d.spiReads)
    ensures PolledIn(old(d.polls), d.polls, 0x86)
    ensures d.irqReads - old(d.irqReads) <= 4005 * (if limit < 0 then 0 else limit)
  {
    hide Answered, Device.Cooperates, Device.Heard, Encode, InVain, NextExchange, Retried, Zeros;
    ghost var f := p.Value();
    var rx := ConstructAck(0, 0, 0, 0);
    es := [];
    ret := Timeout;
    NoneYet(d, d.spiReads, f, ackType);
    var i := 0;
    while i < limit
      invariant d.Valid() && p.Valid() && p.Value() == f
      invariant fresh(rx) && fresh(rx.payload) && rx.Valid() && rx.payload != d.txBuffer && rx.payload != d.rxBuffer
      invariant Logged(d.trace, d.air, old(d.trace), old(d.air), es)
      invariant 0 <= i && (i <= limit || i == 0)
      invariant ExchangeRun(f, ackType, limit, es)
                  == Some(Exchange(i, false, if i >= limit then Some(Timeout) else None))
      invariant ret == Timeout
      invariant InVain(d, old(d.spiReads), f, ackType, i, d.spiReads)
      invariant PolledIn(old(d.polls), d.polls, 0x86)
      invariant d.irqReads - old(d.irqReads) <= 4005 * i
    {
      ghost var us;
      ghost var trace, air, polls, reads1 := d.trace, d.air, d.polls, d.spiReads;
      var verdict;
      verdict, us := Attempt(d, p, rx, ackType);
      ExchangeAttempt(f, ackType, limit, es, i, us, verdict);
      LoggedAppend(trace, air, old(d.trace), old(d.air), es, us);
      PolledInAppend(old(d.polls), polls, d.polls, 0x86);
      OneMoreAttempt(d, old(d.spiReads), f, ackType, limit, i, reads1, d.spiReads, verdict);
      es := es + us;
      if verdict.Some? {
        return verdict.value, es;
      }
      i := i + 1;
    }
    AllInVain(d, old(d.spiReads), f, ackType, limit, i, d.spiReads);
  }

  /** The cells of a burst: packets nothing else of the device refers to, each with a payload of its own. */
  ghost predicate Burst(d: Device, cells: seq<PacketCell?>, frames: seq<Packet>)
    reads set c: PacketCell | c in cells
    reads set c: PacketCell | c in cells :: c.payload
  {
    && |cells| == |frames|
    && forall k | 0 <= k < |cells| ::
         && cells[k] != null && cells[k].Valid() && cells[k].Value() == frames[k]
         && cells[k].payload != d.txBuffer && cells[k].payload != d.rxBuffer
  }

  /** The first `i` slots freed, the others as they were. */
  ghost predicate FreedUpTo(now: seq<PacketCell?>, before: seq<PacketCell?>, i: nat) {
    && |now| == |before| && i <= |now|
    && (forall k | 0 <= k < i :: now[k] == null)
    && now[i..] == before[i..]
  }

  /** One round of the loop: the `i`-th frame with the acknowledgement type its position asks for, freed once it
      is acknowledged. */
  method SendNth(d: Device, pBuf: array<PacketCell?>, i: nat, ghost cells: seq<PacketCell?>, ghost frames: seq<Packet>)
    returns (ret: Status, ghost us: seq<RadioEvent>)
    requires d.Valid() && Burst(d, cells, frames) && i < pBuf.Length && FreedUpTo(pBuf[..], cells, i)
    modifies d, d.txBuffer, d.rxBuffer, pBuf
    ensures d.Valid() && Burst(d, cells, frames)
    ensures FreedUpTo(pBuf[..], cells, if ret == Ok then i + 1 else i)
    ensures Logged(d.trace, d.air, old(d.trace), old(d.air), us)
    ensures ExchangeRun(frames[i], Expected(i, |frames|), BURST_TRIES, us).Some?
    ensures ExchangeRun(frames[i], Expected(i, |frames|), BURST_TRIES, us).value.result == Some(ret)
    ensures Retried(d, old(d.spiReads), frames[i], Expected(i, |frames|), 4, ret, d.spiReads)
    ensures PolledIn(old(d.polls), d.polls, 0x86)
    ensures d.irqReads - old(d.irqReads) <= 16020
  {
    hide Answered, AnsweredAt, Device.Cooperates, Encode, ExchangeRun, Zeros;
    assert pBuf[i] == pBuf[..][i..][0] == cells[i];
    var ptype;
    if i == 0 {
      ptype := BeginType;
    } else if i == pBuf.Length - 1 {
      ptype := EndType;
    } else {
      ptype := AckType;
    }
    ret, us := SendPacketEnsureAck(d, pBuf[i], 4 * PHY_TIMEOUT, ptype);
    if ret == Ok {
      Free(pBuf, i, cells);
    }
  }

  method Free(pBuf: array<PacketCell?>, i: nat, ghost before: seq<PacketCell?>)
    requires i < pBuf.Length && FreedUpTo(pBuf[..], before, i)
    modifies pBuf
    ensures FreedUpTo(pBuf[..], before, i + 1)
  {
    ghost var now := pBuf[..];
    pBuf[i] := null;
    assert pBuf[..][i + 1..] == now[i..][1..] == before[i + 1..];
  }

  /** Each frame from the `i`-th on is answered in one of its first four attempts, when these begin with the `r`-th
      read, one after the other. */
  ghost predicate Served(d: Device, r: nat, frames: seq<Packet>, i: nat)
    requires d.Sane() && i <= |frames|
    decreases |frames| - i
  {
    i < |frames| ==>
      && |Encode(frames[i])| <= 255
      && exists k: nat ::
           && k < 4 && AnsweredAt(d, r, frames[i], Expected(i, |frames|), k)
           && Served(d, r + 4 * (k + 1), frames, i + 1)
  }

  lemma ServedOnce(d: Device, r: nat, frames: seq<Packet>, i: nat, ret: Status, next: nat)
    requires d.Sane() && d.Cooperates() && i < |frames| && Served(d, r, frames, i)
    requires Retried(d, r, frames[i], Expected(i, |frames|), 4, ret, next)
    ensures ret == Ok && Served(d, next, frames, i + 1)
  {
    hide Answered, AnsweredAt, Device.Cooperates, Device.Sane, Encode;
    var k: nat :| k < 4 && AnsweredAt(d, r, frames[i], Expected(i, |frames|), k)
                  && Served(d, r + 4 * (k + 1), frames, i + 1);
  }

  /** send_burst. A freed packet's slot is null afterwards: exactly the acknowledged prefix is freed, the rest of
      the array is untouched, and result and prefix are what the sender automaton makes of the events caused. On a
      platform that cooperates and answers every frame in one of its first four attempts, it succeeds. Whatever the
      platform does, it gives up only after a transmission that failed or after four attempts in vain at one frame. */
  method SendBurst(d: Device, pBuf: array<PacketCell?>, ghost frames: seq<Packet>)
    returns (ret: Status, ghost acked: nat, ghost es: seq<RadioEvent>)
    requires d.Valid() && Burst(d, pBuf[..], frames)
    modifies d, d.txBuffer, d.rxBuffer, pBuf
    ensures d.Valid()
    ensures Logged(d.trace, d.air, old(d.trace), old(d.air), es)
    ensures SenderRun(frames, es).Some?
    ensures SenderRun(frames, es).value.result == Some(ret) && SenderRun(frames, es).value.acked == acked
    ensures ret == Ok <==> acked == pBuf.Length
    ensures FreedUpTo(pBuf[..], old(pBuf[..]), acked)
    ensures d.Cooperates() && Served(d, old(d.spiReads), frames, 0) ==> ret == Ok
    ensures ret != Ok ==>
              && acked < |frames| && es != []
              && if IsTxError(es[|es| - 1]) then ret == es[|es| - 1].status
                 else ret == Timeout && FourInVain(frames, acked, es)
    ensures PolledIn(old(d.polls), d.polls, 0x86)
    ensures d.irqReads - old(d.irqReads) <= 16020 * |frames|
  {
    hide Answered, AnsweredAt, Device.Cooperates, Device.Sane, Encode, ExchangeRun, Expected, FourInVain,
         PacketCell.Value, Retried, Served, Zeros;
    es, acked := [], 0;
    var len := pBuf.Length;
    ghost var cells := pBuf[..];
    for i := 0 to len
      invariant d.Valid() && Burst(d, cells, frames) && acked == i
      invariant Logged(d.trace, d.air, old(d.trace), old(d.air), es)
      invariant FreedUpTo(pBuf[..], cells, i)
      invariant SenderRun(frames, es) == Some(AfterFrames(frames, i))
      invariant d.Cooperates() && Served(d, old(d.spiReads), frames, 0) ==> Served(d, d.spiReads, frames, i)
      invariant PolledIn(old(d.polls), d.polls, 0x86)
      invariant d.irqReads - old(d.irqReads) <= 16020 * i
    {
      ghost var us;
      ghost var trace, air, polls := d.trace, d.air, d.polls;
      ghost var reads0 := d.spiReads;
      ret, us := SendNth(d, pBuf, i, cells, frames);
      SenderAfterExchange(frames, es, i, us, ret);
      LoggedAppend(trace, air, old(d.trace), old(d.air), es, us);
      PolledInAppend(old(d.polls), polls, d.polls, 0x86);
      if d.Cooperates() && Served(d, old(d.spiReads), frames, 0) {
        ServedOnce(d, reads0, frames, i, ret, d.spiReads);
      }
      es := es + us;
      FailureMeansFourInVain(frames, es);
      if ret != Ok {
        return;
      }
      acked := i + 1;
    }
    ret := Ok;
  }

  function AfterFrames(frames: seq<Packet>, i: nat): Sender {
    Sender(frames, i, StartExchange(BURST_TRIES), if i == |frames| then Some(Ok) else None)
  }

  lemma SenderAfterExchange(frames: seq<Packet>, es: seq<RadioEvent>, i: nat, us: seq<RadioEvent>, ret: Status)
    requires i < |frames| && SenderRun(frames, es) == Some(AfterFrames(frames, i))
    requires ExchangeRun(frames[i], Expected(i, |frames|), BURST_TRIES, us).Some?
    requires ExchangeRun(frames[i], Expected(i, |frames|), BURST_TRIES, us).value.result == Some(ret)
    ensures ret == Ok ==> SenderRun(frames, es + us) == Some(AfterFrames(frames, i + 1))
    ensures ret != Ok ==>
              && SenderRun(frames, es + us).Some?
              && SenderRun(frames, es + us).value.result == Some(ret) && SenderRun(frames, es + us).value.acked == i
  {
    SenderRunsExchange(frames, es, i, us);
  }
}
