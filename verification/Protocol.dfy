/** The two halves of the protocol as automata over what happens at the radio: the sender's bounded retry
    loops (sx127x_utils.c) and the receiver's acknowledge-then-handle loop (sx127x_rx_utils.c). */
module Protocol {
  import opened Packets
  import opened Codec
  import H = Handler

  /** What a wait for a packet ends with: an error, or a parsed packet. */
  datatype Reception = Silence(status: Status) | Got(packet: Packet)

  /** `aired`: the radio was put into transmit mode with this frame, whatever status followed. */
  datatype RadioEvent =
    | Transmit(frame: seq<byte>, aired: bool, status: Status)
    | Listen(reply: Reception)

  // ---- One packet: send, wait, retry ----

  /** send_packet_ensure_ack: attempts finished without an acknowledgement, whether a reply is awaited, and the
      result once there is one. */
  datatype Exchange = Exchange(tries: nat, awaiting: bool, result: Option<Status>)

  function StartExchange(limit: int): Exchange {
    Exchange(0, false, if limit <= 0 then Some(Timeout) else None)
  }

  function NextExchange(f: Packet, expected: PacketType, limit: int, x: Exchange, e: RadioEvent): Option<Exchange> {
    if x.result.Some? then None
    else
      match e
      case Transmit(frame, aired, status) =>
        if x.awaiting || frame != Encode(f) || (status == Ok && !aired) then None
        else if status == Ok then Some(x.(awaiting := true))
        else Some(x.(result := Some(status)))
      case Listen(reply) =>
        if !x.awaiting then None
        else if IsAcceptance(f, expected, e) then Some(x.(result := Some(Ok)))
        else Some(Exchange(x.tries + 1, false, if x.tries + 1 >= limit then Some(Timeout) else None))
  }

  predicate IsAcceptance(f: Packet, expected: PacketType, e: RadioEvent) {
    e.Listen? && e.reply.Got? && Accepts(f, expected, e.reply.packet)
  }

  predicate IsTxError(e: RadioEvent) {
    e.Transmit? && e.status != Ok
  }

  /** The exchange after the events `es`; None if it cannot produce them. */
  function ExchangeRun(f: Packet, expected: PacketType, limit: int, es: seq<RadioEvent>): Option<Exchange> {
    if es == [] then Some(StartExchange(limit))
    else
      match ExchangeRun(f, expected, limit, es[..|es| - 1])
      case None => None
      case Some(x) => NextExchange(f, expected, limit, x, es[|es| - 1])
  }

  lemma ExchangeSnoc(f: Packet, expected: PacketType, limit: int, es: seq<RadioEvent>, e: RadioEvent)
    ensures ExchangeRun(f, expected, limit, es + [e])
              == match ExchangeRun(f, expected, limit, es)
                 case None => None
                 case Some(x) => NextExchange(f, expected, limit, x, e)
  {
    assert (es + [e])[..|es|] == es;
  }

  /** What the events of an exchange look like that has come to `x`. */
  predicate Shape(f: Packet, expected: PacketType, limit: int, es: seq<RadioEvent>, x: Exchange) {
    && (forall i | 0 <= i < |es| ::
          if i % 2 == 0 then es[i].Transmit? && es[i].frame == Encode(f) else es[i].Listen?)
    && (forall i | 0 <= i < |es| - 1 :: !IsAcceptance(f, expected, es[i]) && !IsTxError(es[i]))
    && (x.result == None ==>
          && |es| == 2 * x.tries + (if x.awaiting then 1 else 0) && x.tries < limit
          && (es != [] ==> !IsAcceptance(f, expected, es[|es| - 1]) && !IsTxError(es[|es| - 1])))
    && (x.result == Some(Ok) ==> es != [] && IsAcceptance(f, expected, es[|es| - 1]) && |es| <= 2 * limit)
    && (x.result.Some? && x.result != Some(Ok) ==>
          if es != [] && IsTxError(es[|es| - 1])
          then x.result == Some(es[|es| - 1].status) && |es| < 2 * limit
          else x.result == Some(Timeout) && |es| == 2 * (if limit < 0 then 0 else limit)
               && (es != [] ==> !IsAcceptance(f, expected, es[|es| - 1])))
  }

  /** Until it ends, an exchange alternates between sending its frame and listening in vain. */
  lemma {:induction false} ExchangeShape(f: Packet, expected: PacketType, limit: int, es: seq<RadioEvent>)
    requires ExchangeRun(f, expected, limit, es).Some?
    ensures Shape(f, expected, limit, es, ExchangeRun(f, expected, limit, es).value)
    decreases |es|
  {
    hide NextExchange;
    if es != [] {
      var before := es[..|es| - 1];
      ExchangeShape(f, expected, limit, before);
      ShapeStep(f, expected, limit, before, ExchangeRun(f, expected, limit, before).value, es[|es| - 1]);
      assert before + [es[|es| - 1]] == es;
    }
  }

  lemma ShapeStep(f: Packet, expected: PacketType, limit: int, es: seq<RadioEvent>, x: Exchange, e: RadioEvent)
    requires Shape(f, expected, limit, es, x) && NextExchange(f, expected, limit, x, e).Some?
    ensures Shape(f, expected, limit, es + [e], NextExchange(f, expected, limit, x, e).value)
  {
    hide Accepts, Encode;
  }

  /** What the radio will do on each attempt: the status of the transmission, and what is heard afterwards. */
  datatype Attempt = Attempt(tx: Status, heard: Reception)

  predicate Acknowledged(f: Packet, expected: PacketType, a: Attempt) {
    a.tx == Ok && a.heard.Got? && Accepts(f, expected, a.heard.packet)
  }

  /** The events of an exchange are those the attempts dictate. */
  ghost predicate Follows(es: seq<RadioEvent>, attempts: nat -> Attempt) {
    forall i | 0 <= i < |es| ::
      match es[i]
      case Transmit(_, _, status) => status == attempts(i / 2).tx
      case Listen(reply) => reply == attempts(i / 2).heard
  }

  /** The first attempt that settles the matter decides, if it is among the first `limit`; otherwise the result
      is a timeout. A reply is only ever judged in the attempt that heard it. */
  lemma RetryVerdict(f: Packet, expected: PacketType, limit: int, es: seq<RadioEvent>, attempts: nat -> Attempt)
    requires ExchangeRun(f, expected, limit, es).Some? && Follows(es, attempts)
    requires ExchangeRun(f, expected, limit, es).value.result.Some?
    ensures var result := ExchangeRun(f, expected, limit, es).value.result.value;
            && (result == Ok <==>
                  exists i: nat ::
                    && i < limit && Acknowledged(f, expected, attempts(i))
                    && forall j: nat | j < i :: attempts(j).tx == Ok)
            && (result != Ok ==>
                  || (exists i: nat ::
                        && i < limit && attempts(i).tx == result
                        && forall j: nat | j < i :: attempts(j).tx == Ok && !Acknowledged(f, expected, attempts(j)))
                  || (result == Timeout
                      && forall j: nat | j < limit :: attempts(j).tx == Ok && !Acknowledged(f, expected, attempts(j))))
  {
    hide Accepts, Encode, ExchangeRun;
    ExchangeShape(f, expected, limit, es);
    var result := ExchangeRun(f, expected, limit, es).value.result.value;
    var n := |es|;
    forall j: nat | 2 * j + 1 < n - 1
      ensures attempts(j).tx == Ok && !Acknowledged(f, expected, attempts(j))
    {
      var sent, heard := es[2 * j], es[2 * j + 1];
      assert (2 * j + 1) / 2 == j;
      assert sent.Transmit? && heard.Listen?;
    }
    if n > 0 {
      var last := es[n - 1];
      var k := (n - 1) / 2;
      if last.Listen? {
        assert n - 1 == 2 * k + 1;
        assert es[2 * k].Transmit? && attempts(k).tx == Ok;
        assert attempts(k).heard == last.reply;
      } else {
        assert n - 1 == 2 * k;
        assert attempts(k).tx == last.status;
      }
    }
  }

  // ---- A burst ----

  /** 4 * PHY_TIMEOUT_MSEC in units of PHY_TIMEOUT_MSEC. */
  const BURST_TRIES := 4

  /** Which type the acknowledgement of the `i`-th of `n` frames must have. */
  function Expected(i: nat, n: nat): PacketType {
    if i == 0 then BeginType else if i == n - 1 then EndType else AckType
  }

  /** send_burst: frames acknowledged (and freed), the exchange under way, and the result once there is one. */
  datatype Sender = Sender(frames: seq<Packet>, acked: nat, exchange: Exchange, result: Option<Status>)

  function StartSender(frames: seq<Packet>): Sender {
    Sender(frames, 0, StartExchange(BURST_TRIES), if frames == [] then Some(Ok) else None)
  }

  function NextSender(s: Sender, e: RadioEvent): Option<Sender> {
    if s.result.Some? || s.acked >= |s.frames| then None
    else
      match NextExchange(s.frames[s.acked], Expected(s.acked, |s.frames|), BURST_TRIES, s.exchange, e)
      case None => None
      case Some(x) =>
        if x.result == Some(Ok) then
          Some(Sender(s.frames, s.acked + 1, StartExchange(BURST_TRIES),
                      if s.acked + 1 == |s.frames| then Some(Ok) else None))
        else Some(s.(exchange := x, result := x.result))
  }

  function SenderRun(frames: seq<Packet>, es: seq<RadioEvent>): Option<Sender> {
    if es == [] then Some(StartSender(frames))
    else
      match SenderRun(frames, es[..|es| - 1])
      case None => None
      case Some(s) => NextSender(s, es[|es| - 1])
  }

  lemma SenderSnoc(frames: seq<Packet>, es: seq<RadioEvent>, e: RadioEvent)
    ensures SenderRun(frames, es + [e])
              == match SenderRun(frames, es) case None => None case Some(s) => NextSender(s, e)
  {
    assert (es + [e])[..|es|] == es;
  }

  lemma {:induction false} SenderShape(frames: seq<Packet>, es: seq<RadioEvent>)
    requires SenderRun(frames, es).Some?
    ensures var s := SenderRun(frames, es).value;
            && s.frames == frames && s.acked <= |frames|
            && (s.result == Some(Ok) <==> s.acked == |frames|)
            && (s.result == None ==> s.exchange.result == None && s.exchange.tries < BURST_TRIES)
    decreases |es|
  {
    if es != [] {
      SenderShape(frames, es[..|es| - 1]);
    }
  }

  /** The sender of a burst whose `i`-th frame's exchange has come to `x`. */
  function AfterExchange(frames: seq<Packet>, i: nat, x: Exchange): Sender {
    if x.result == Some(Ok)
    then Sender(frames, i + 1, StartExchange(BURST_TRIES), if i + 1 == |frames| then Some(Ok) else None)
    else Sender(frames, i, x, x.result)
  }

  /** A finished exchange for the current frame moves the burst on by one frame, or ends it. */
  lemma {:induction false} SenderRunsExchange(frames: seq<Packet>, es: seq<RadioEvent>, i: nat, us: seq<RadioEvent>)
    requires i < |frames|
    requires SenderRun(frames, es) == Some(Sender(frames, i, StartExchange(BURST_TRIES), None))
    requires ExchangeRun(frames[i], Expected(i, |frames|), BURST_TRIES, us).Some?
    ensures var x := ExchangeRun(frames[i], Expected(i, |frames|), BURST_TRIES, us).value;
            SenderRun(frames, es + us) == Some(AfterExchange(frames, i, x))
    decreases |us|
  {
    hide Expected, NextExchange, NextSender, SenderRun;
    if us == [] {
      assert es + us == es;
    } else {
      var before, e := us[..|us| - 1], us[|us| - 1];
      SenderRunsExchange(frames, es, i, before);
      ExchangeStepAtSender(frames, i, ExchangeRun(frames[i], Expected(i, |frames|), BURST_TRIES, before).value, e);
      SenderSnoc(frames, es + before, e);
      assert es + us == es + before + [e];
    }
  }

  lemma ExchangeStepAtSender(frames: seq<Packet>, i: nat, x: Exchange, e: RadioEvent)
    requires i < |frames| && NextExchange(frames[i], Expected(i, |frames|), BURST_TRIES, x, e).Some?
    ensures var y := NextExchange(frames[i], Expected(i, |frames|), BURST_TRIES, x, e).value;
            && x.result == None
            && NextSender(Sender(frames, i, x, None), e) == Some(AfterExchange(frames, i, y))
  {
  }

  /** The burst can get past its `i`-th frame: the receiver's reply is of the type expected there. */
  predicate Passable(frames: seq<Packet>, i: nat)
    requires i < |frames|
  {
    TypeOf(ReplyTo(frames[i])) == Expected(i, |frames|)
  }

  /** That is to say: the first frame has sequence number 0, the last 255, and no other one of these. */
  lemma PassableIff(frames: seq<Packet>, i: nat)
    requires i < |frames|
    ensures Passable(frames, i) <==>
              if i == 0 then frames[i].seqNo == 0
              else if i == |frames| - 1 then frames[i].seqNo == 255
              else 0 < frames[i].seqNo < 255
  {
    TypeIff(ReplyTo(frames[i]));
  }

  /** Whatever the radio does, a burst never gets past a frame whose acknowledgement cannot be of the type the
      schedule expects. */
  lemma {:induction false} NeverPastImpassable(frames: seq<Packet>, es: seq<RadioEvent>, i: nat)
    requires i < |frames| && !Passable(frames, i)
    requires SenderRun(frames, es).Some?
    ensures SenderRun(frames, es).value.acked <= i
    decreases |es|
  {
    if es != [] {
      NeverPastImpassable(frames, es[..|es| - 1], i);
      SenderShape(frames, es[..|es| - 1]);
      var e := es[|es| - 1];
      if e.Listen? && e.reply.Got? {
        AcceptsOnlyItsReply(frames[i], Expected(i, |frames|), e.reply.packet);
      }
    }
  }

  /** Every frame sent once and acknowledged at once. */
  function IdealEvents(frames: seq<Packet>, k: nat): seq<RadioEvent>
    requires k <= |frames|
  {
    if k == 0 then [] else IdealEvents(frames, k - 1) + IdealExchange(frames[k - 1])
  }

  function IdealExchange(f: Packet): seq<RadioEvent> {
    [Transmit(Encode(f), true, Ok), Listen(Got(ReplyTo(f)))]
  }

  lemma IdealExchangeSucceeds(f: Packet, expected: PacketType)
    requires TypeOf(ReplyTo(f)) == expected
    ensures ExchangeRun(f, expected, BURST_TRIES, IdealExchange(f)) == Some(Exchange(0, true, Some(Ok)))
  {
    var es := IdealExchange(f);
    assert es[..1][..0] == [];
    assert ExchangeRun(f, expected, BURST_TRIES, es[..1]) == Some(Exchange(0, true, None));
  }

  lemma {:induction false} IdealRun(frames: seq<Packet>, k: nat)
    requires k <= |frames| && forall i | 0 <= i < k :: Passable(frames, i)
    ensures SenderRun(frames, IdealEvents(frames, k))
              == Some(Sender(frames, k, StartExchange(BURST_TRIES), if k == |frames| then Some(Ok) else None))
  {
    hide ExchangeRun, NextSender;
    if k > 0 {
      IdealRun(frames, k - 1);
      assert Passable(frames, k - 1);
      IdealExchangeSucceeds(frames[k - 1], Expected(k - 1, |frames|));
      SenderRunsExchange(frames, IdealEvents(frames, k - 1), k - 1, IdealExchange(frames[k - 1]));
    }
  }

  /** Exactly which bursts can succeed at all. */
  lemma CanSucceedIff(frames: seq<Packet>)
    ensures (exists es :: SenderRun(frames, es).Some? && SenderRun(frames, es).value.result == Some(Ok))
              <==> forall i | 0 <= i < |frames| :: Passable(frames, i)
  {
    if forall i | 0 <= i < |frames| :: Passable(frames, i) {
      IdealRun(frames, |frames|);
      assert SenderRun(frames, IdealEvents(frames, |frames|)).Some?;
    } else {
      var i :| 0 <= i < |frames| && !Passable(frames, i);
      forall es | SenderRun(frames, es).Some?
        ensures SenderRun(frames, es).value.result != Some(Ok)
      {
        NeverPastImpassable(frames, es, i);
        SenderShape(frames, es);
      }
    }
  }

  function Transmissions(es: seq<RadioEvent>): nat {
    if es == [] then 0 else Transmissions(es[..|es| - 1]) + (if es[|es| - 1].Transmit? then 1 else 0)
  }

  /** At most four transmissions for each frame up to and including the one under way. */
  lemma {:induction false} TransmissionBound(frames: seq<Packet>, es: seq<RadioEvent>)
    requires SenderRun(frames, es).Some?
    ensures var s := SenderRun(frames, es).value;
            && Transmissions(es) <= 4 * |frames|
            && Transmissions(es) <= 4 * (s.acked + 1)
            && (s.result == None ==>
                  Transmissions(es)
                    <= BURST_TRIES * s.acked + s.exchange.tries + (if s.exchange.awaiting then 1 else 0))
            && (s.result == Some(Ok) ==> Transmissions(es) <= BURST_TRIES * s.acked)
    decreases |es|
  {
    SenderShape(frames, es);
    if es != [] {
      TransmissionBound(frames, es[..|es| - 1]);
      SenderShape(frames, es[..|es| - 1]);
    }
  }

  // ---- How often a frame is tried ----

  /** A frame sent and something heard in reply, once for each of `heard`. */
  function Tried(f: Packet, heard: seq<Reception>): seq<RadioEvent> {
    if heard == [] then []
    else Tried(f, heard[..|heard| - 1]) + [Transmit(Encode(f), true, Ok), Listen(heard[|heard| - 1])]
  }

  /** A transmission and what is heard after it. */
  lemma ExchangeOnce(f: Packet, expected: PacketType, limit: int, es: seq<RadioEvent>, heard: Reception)
    requires ExchangeRun(f, expected, limit, es).Some?
    requires var x := ExchangeRun(f, expected, limit, es).value; x.result == None && !x.awaiting
    ensures var x := ExchangeRun(f, expected, limit, es).value;
            ExchangeRun(f, expected, limit, es + [Transmit(Encode(f), true, Ok), Listen(heard)]) == Some(
              if heard.Got? && Accepts(f, expected, heard.packet) then Exchange(x.tries, true, Some(Ok))
              else Exchange(x.tries + 1, false, if x.tries + 1 >= limit then Some(Timeout) else None))
  {
    hide Accepts, Encode, ExchangeRun;
    var sent, got := Transmit(Encode(f), true, Ok), Listen(heard);
    ExchangeSnoc(f, expected, limit, es, sent);
    ExchangeSnoc(f, expected, limit, es + [sent], got);
    Associative(es, [sent], [got]);
    assert [sent] + [got] == [sent, got];
  }

  lemma {:induction false} VainAttempts(f: Packet, expected: PacketType, limit: int, heard: seq<Reception>)
    requires |heard| <= limit && limit > 0
    requires forall r | r in heard :: !(r.Got? && Accepts(f, expected, r.packet))
    ensures ExchangeRun(f, expected, limit, Tried(f, heard))
              == Some(Exchange(|heard|, false, if |heard| == limit then Some(Timeout) else None))
    decreases |heard|
  {
    hide Accepts, Encode;
    if heard != [] {
      var before, last := heard[..|heard| - 1], heard[|heard| - 1];
      assert forall r | r in before :: r in heard;
      assert last in heard;
      VainAttempts(f, expected, limit, before);
      ExchangeOnce(f, expected, limit, Tried(f, before), last);
    }
  }

  /** The sender is about to send the `s.acked`-th frame for the first time. */
  predicate AboutToSend(frames: seq<Packet>, s: Sender) {
    s.frames == frames && s.result == None && s.acked < |frames| && s.exchange.tries == 0 && !s.exchange.awaiting
  }

  lemma {:induction false} AboutToSendStarts(frames: seq<Packet>, es: seq<RadioEvent>)
    requires SenderRun(frames, es).Some? && AboutToSend(frames, SenderRun(frames, es).value)
    ensures var s := SenderRun(frames, es).value;
            s == Sender(frames, s.acked, StartExchange(BURST_TRIES), None)
  {
    SenderShape(frames, es);
  }

  /** A frame is tried four times: after up to three attempts in vain, the accepted reply to the next still moves the
      burst on by one frame. */
  lemma FourthAttemptCounts(frames: seq<Packet>, es: seq<RadioEvent>, heard: seq<Reception>, reply: Packet)
    requires SenderRun(frames, es).Some? && AboutToSend(frames, SenderRun(frames, es).value)
    requires var i := SenderRun(frames, es).value.acked;
             && |heard| <= 3 && Accepts(frames[i], Expected(i, |frames|), reply)
             && forall r | r in heard :: !(r.Got? && Accepts(frames[i], Expected(i, |frames|), r.packet))
    ensures var i := SenderRun(frames, es).value.acked;
            var t := SenderRun(frames, es + Tried(frames[i], heard + [Got(reply)]));
            && t.Some? && t.value.acked == i + 1
            && if i + 1 == |frames| then t.value.result == Some(Ok) else AboutToSend(frames, t.value)
  {
    hide Accepts, Encode, Expected;
    var i := SenderRun(frames, es).value.acked;
    var expected := Expected(i, |frames|);
    AboutToSendStarts(frames, es);
    VainAttempts(frames[i], expected, BURST_TRIES, heard);
    ExchangeOnce(frames[i], expected, BURST_TRIES, Tried(frames[i], heard), Got(reply));
    var all := heard + [Got(reply)];
    assert all[..|heard|] == heard;
    SenderRunsExchange(frames, es, i, Tried(frames[i], all));
  }

  /** After four attempts in vain the burst ends in a timeout. */
  lemma FourVainAttemptsEndIt(frames: seq<Packet>, es: seq<RadioEvent>, heard: seq<Reception>)
    requires SenderRun(frames, es).Some? && AboutToSend(frames, SenderRun(frames, es).value)
    requires var i := SenderRun(frames, es).value.acked;
             && |heard| == 4
             && forall r | r in heard :: !(r.Got? && Accepts(frames[i], Expected(i, |frames|), r.packet))
    ensures var i := SenderRun(frames, es).value.acked;
            var t := SenderRun(frames, es + Tried(frames[i], heard));
            t.Some? && t.value.acked == i && t.value.result == Some(Timeout)
  {
    hide Accepts, Encode, Expected;
    var i := SenderRun(frames, es).value.acked;
    AboutToSendStarts(frames, es);
    VainAttempts(frames[i], Expected(i, |frames|), BURST_TRIES, heard);
    SenderRunsExchange(frames, es, i, Tried(frames[i], heard));
  }

  /** The exchange under way, or the one that ended the burst, is made of the events since `m`, when its frame was
      about to be sent for the first time. */
  predicate ExchangeSince(frames: seq<Packet>, es: seq<RadioEvent>, m: nat) {
    && m <= |es| && SenderRun(frames, es).Some?
    && var s := SenderRun(frames, es).value;
       && s.acked < |frames|
       && SenderRun(frames, es[..m]) == Some(Sender(frames, s.acked, StartExchange(BURST_TRIES), None))
       && ExchangeRun(frames[s.acked], Expected(s.acked, |frames|), BURST_TRIES, es[m..]) == Some(s.exchange)
       && s.exchange.result == s.result
  }

  lemma {:induction false} ExchangeUnderWay(frames: seq<Packet>, es: seq<RadioEvent>) returns (m: nat)
    requires SenderRun(frames, es).Some? && SenderRun(frames, es).value.result != Some(Ok)
    ensures ExchangeSince(frames, es, m)
    decreases |es|
  {
    hide ExchangeRun, Expected;
    if es == [] {
      m := 0;
      SenderShape(frames, es);
      NothingExchanged(frames, 0);
    } else {
      var before, e := es[..|es| - 1], es[|es| - 1];
      m := ExchangeUnderWay(frames, before);
      assert before + [e] == es;
      m := UnderWayStep(frames, before, m, e);
    }
  }

  lemma UnderWayStep(frames: seq<Packet>, es: seq<RadioEvent>, m: nat, e: RadioEvent) returns (n: nat)
    requires ExchangeSince(frames, es, m)
    requires SenderRun(frames, es + [e]).Some? && SenderRun(frames, es + [e]).value.result != Some(Ok)
    ensures ExchangeSince(frames, es + [e], n)
  {
    hide Expected, ExchangeRun, NextExchange, SenderRun;
    var s := SenderRun(frames, es).value;
    SenderShape(frames, es);
    SenderSnoc(frames, es, e);
    ExchangeSnoc(frames[s.acked], Expected(s.acked, |frames|), BURST_TRIES, es[m..], e);
    assert (es + [e])[m..] == es[m..] + [e] && (es + [e])[..m] == es[..m];
    if SenderRun(frames, es + [e]).value.acked == s.acked {
      n := m;
    } else {
      n := |es| + 1;
      NothingExchanged(frames, s.acked + 1);
      assert (es + [e])[..n] == es + [e] && (es + [e])[n..] == [];
    }
  }

  lemma NothingExchanged(frames: seq<Packet>, i: nat)
    ensures i < |frames| ==>
              ExchangeRun(frames[i], Expected(i, |frames|), BURST_TRIES, []) == Some(StartExchange(BURST_TRIES))
  {
  }

  /** `es` ends with four attempts at frame `i`, which was first about to be sent just before them: four transmissions,
      each followed by a wait in vain. */
  predicate FourInVain(frames: seq<Packet>, i: nat, es: seq<RadioEvent>)
    requires i < |frames|
  {
    && |es| >= 8
    && SenderRun(frames, es[..|es| - 8]).Some?
    && var s := SenderRun(frames, es[..|es| - 8]).value;
       && AboutToSend(frames, s) && s.acked == i
       && forall k | 0 <= k < 4 ::
            && es[|es| - 8 + 2 * k].Transmit? && es[|es| - 8 + 2 * k].frame == Encode(frames[i])
            && es[|es| - 7 + 2 * k].Listen? && !IsAcceptance(frames[i], Expected(i, |frames|), es[|es| - 7 + 2 * k])
  }

  /** A burst that fails ends with a transmission that failed, or with four attempts in vain and a timeout. */
  lemma FailureMeansFourInVain(frames: seq<Packet>, es: seq<RadioEvent>)
    requires SenderRun(frames, es).Some?
    ensures var s := SenderRun(frames, es).value;
            s.result.Some? && s.result != Some(Ok) ==>
              && s.acked < |frames| && es != []
              && if IsTxError(es[|es| - 1]) then s.result == Some(es[|es| - 1].status)
                 else s.result == Some(Timeout) && FourInVain(frames, s.acked, es)
  {
    var s := SenderRun(frames, es).value;
    if s.result.Some? && s.result != Some(Ok) {
      var m := ExchangeUnderWay(frames, es);
      EndOfExchange(frames, es, m);
    }
  }

  lemma EndOfExchange(frames: seq<Packet>, es: seq<RadioEvent>, m: nat)
    requires ExchangeSince(frames, es, m)
    requires var s := SenderRun(frames, es).value; s.result.Some? && s.result != Some(Ok)
    ensures var s := SenderRun(frames, es).value;
            && es != []
            && if IsTxError(es[|es| - 1]) then s.result == Some(es[|es| - 1].status)
               else s.result == Some(Timeout) && FourInVain(frames, s.acked, es)
  {
    hide Accepts, Encode, Expected, ExchangeRun, SenderRun;
    var s := SenderRun(frames, es).value;
    var us := es[m..];
    ExchangeShape(frames[s.acked], Expected(s.acked, |frames|), BURST_TRIES, us);
    assert us != [] ==> us[|us| - 1] == es[|es| - 1];
    if !(us != [] && IsTxError(us[|us| - 1])) {
      assert |us| == 8 && m == |es| - 8;
      forall k | 0 <= k < 4
        ensures es[|es| - 8 + 2 * k] == us[2 * k] && es[|es| - 7 + 2 * k] == us[2 * k + 1]
      {
      }
    }
  }

  // ---- The receiver ----

  datatype RxPhase =
    | Listening
    | Replying(p: Packet)
    | Handling(p: Packet)
    | Stopped(status: Status)

  datatype RxEvent = Radio(e: RadioEvent) | Handled

  datatype Receiver = Receiver(handler: H.State, calls: seq<H.Callback>, phase: RxPhase)

  /** One step of the loop: hear a packet, acknowledge it, handle it. An error while sending the acknowledgement
      ends the loop with the packet unhandled. */
  function NextReceiver(r: Receiver, e: RxEvent): Option<Receiver> {
    match (r.phase, e)
    case (Listening, Radio(Listen(Got(p)))) => Some(r.(phase := Replying(p)))
    case (Replying(p), Radio(Transmit(frame, aired, status))) =>
      if frame != Encode(ReplyTo(p)) || (status == Ok && !aired) then None
      else if status == Ok then Some(r.(phase := Handling(p)))
      else Some(r.(phase := Stopped(status)))
    case (Handling(p), Handled) =>
      var o := H.Step(r.handler, p);
      Some(Receiver(o.next, r.calls + o.calls, Listening))
    case _ => None
  }

  function ReceiverRun(r: Receiver, es: seq<RxEvent>): Option<Receiver> {
    if es == [] then Some(r)
    else
      match ReceiverRun(r, es[..|es| - 1])
      case None => None
      case Some(q) => NextReceiver(q, es[|es| - 1])
  }

  /** What of a receiver's events happened at the radio. */
  function AtRadio(es: seq<RxEvent>): seq<RadioEvent> {
    if es == [] then []
    else AtRadio(es[..|es| - 1]) + (if es[|es| - 1].Radio? then [es[|es| - 1].e] else [])
  }

  lemma ReceiverSnoc(r: Receiver, es: seq<RxEvent>, e: RxEvent)
    ensures ReceiverRun(r, es + [e])
              == match ReceiverRun(r, es) case None => None case Some(q) => NextReceiver(q, e)
    ensures AtRadio(es + [e]) == AtRadio(es) + (if e.Radio? then [e.e] else [])
  {
    assert (es + [e])[..|es|] == es;
  }
}
