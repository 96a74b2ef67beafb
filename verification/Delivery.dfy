/** What the invariant of the system means to its users. */
module Delivery {
  import opened Packets
  import opened Codec
  import opened Fragments
  import opened Protocol
  import opened Stream
  import opened Arq
  import H = Handler

  /** Whatever is lost, repeated or fails, and whatever the receiver was busy with before: at every moment the
      callbacks made are a prefix of those the blobs' frames cause when presented once and in order. */
  lemma CallsArePrefix(c: Setup, ls: seq<Label>, w: World)
    requires c.Valid() && Execute(c, Start(c), ls) == Some(w)
    ensures w.receiver.calls <= CallsFor(c, |c.blobs|)
  {
    hide ChannelsAgree, Execute, H.Run, SenderAgrees;
    InvariantAlways(c, ls);
    var r: nat, h: nat, m: nat, n: nat :| Agrees(c, w, r, h, m, n);
    DeliveredSoFar(c, h);
  }

  /** So with a receiver ready for the first blob, the captures delivered so far are at every moment those of a
      prefix of the blobs, in order, each once, and each reassembles to its blob byte for byte. */
  lemma DeliveriesArePrefix(c: Setup, ls: seq<Label>, w: World)
    requires c.Valid() && c.Ready() && Execute(c, Start(c), ls) == Some(w)
    ensures w.receiver.calls <= c.Deliveries(|c.blobs|) && AreBlobs(c, w.receiver.calls)
  {
    hide Execute, H.Run, Setup.Frames, Setup.Ready;
    CallsArePrefix(c, ls, w);
    CallsAreDeliveriesIff(c, |c.blobs|);
    DeliveriesReassemble(c, |c.blobs|);
  }

  /** Captures delivered, the `k`-th of which reassembles to the `k`-th blob. */
  predicate AreBlobs(c: Setup, calls: seq<H.Callback>) {
    && |calls| <= |c.blobs|
    && forall k | 0 <= k < |calls| :: calls[k].Delivered? && Reassemble(calls[k].ps) == c.blobs[k].data
  }

  lemma DeliveriesReassemble(c: Setup, k: nat)
    requires k <= |c.blobs|
    ensures AreBlobs(c, c.Deliveries(k))
  {
    forall i | 0 <= i < k
      ensures Reassemble(c.Deliveries(k)[i].ps) == c.blobs[i].data
    {
      RoundTrip(c.RouteOf(c.blobs[i]), c.blobs[i].data, 1);
    }
  }

  /** When the sender reports success for a blob and the receiver has no packet left to handle, then whatever the
      receiver was busy with before, every blob up to and including that one has been delivered but perhaps the
      first, and the first, with nothing else, exactly if the receiver was ready for it. */
  lemma SuccessMeansDelivered(c: Setup, ls: seq<Label>, w: World)
    requires c.Valid() && Execute(c, Start(c), ls) == Some(w)
    requires w.sender.result == Some(Ok) && w.receiver.phase == Listening
    ensures w.blob < |c.blobs| && w.receiver.calls == CallsFor(c, w.blob + 1)
            && (w.receiver.calls == c.Deliveries(w.blob + 1) <==> c.Ready())
            && (c.Ready() ==> |w.receiver.calls| == w.blob + 1 && AreBlobs(c, w.receiver.calls))
  {
    hide Alternates, AreBlobs, CallsFor, Execute, H.Run, H.Step, Setup.Frames, Setup.Ready;
    InvariantAlways(c, ls);
    var r: nat, h: nat, m: nat, n: nat :| Agrees(c, w, r, h, m, n);
    AllHandled(c, w, r, h, m, n);
    CallsAreDeliveriesIff(c, w.blob + 1);
    DeliveriesReassemble(c, w.blob + 1);
  }

  lemma AllHandled(c: Setup, w: World, r: nat, h: nat, m: nat, n: nat)
    requires c.Valid() && Agrees(c, w, r, h, m, n) && w.sender.result == Some(Ok) && h == r
    ensures w.receiver.calls == CallsFor(c, w.blob + 1) && w.receiver.handler == StateAfter(c, w.blob + 1)
  {
    hide Alternates, CallsFor, H.Run, H.Step, Setup.Ready, StateAfter;
    var f := w.sender.frames;
    StreamUpTo(c, w.blob, |f|);
    assert f[..|f|] == f && c.Frames(w.blob + 1) == c.Frames(w.blob) + f;
    assert h == Position(c, w) == |c.Frames(w.blob)| + |f|;
    WholeBlobs(c, w.blob + 1);
  }

  /** The receiver is busy with `p`, or has stopped. */
  predicate BusyWith(phase: RxPhase, p: Packet) {
    phase == Replying(p) || phase == Handling(p) || phase.Stopped?
  }

  /** What success means at any moment, with a receiver ready for the first blob: the blob has been delivered
      exactly if the receiver is no longer capturing. Otherwise its END, acknowledged already, is what the receiver
      is busy with, or the receiver stopped before handling it; the blobs before have been delivered. */
  lemma SuccessAtAnyMoment(c: Setup, ls: seq<Label>, w: World)
    requires c.Valid() && c.Ready() && Execute(c, Start(c), ls) == Some(w)
    requires w.sender.result == Some(Ok)
    ensures w.blob < |c.blobs|
            && (w.receiver.calls == c.Deliveries(w.blob + 1) <==> !w.receiver.handler.capture)
            && (w.receiver.handler.capture ==>
                  && w.receiver.calls == c.Deliveries(w.blob)
                  && BusyWith(w.receiver.phase, End(c.RouteOf(c.blobs[w.blob]))))
  {
    hide Alternates, Execute, H.Run, H.Step, Setup.Frames, Setup.Ready;
    InvariantAlways(c, ls);
    var r: nat, h: nat, m: nat, n: nat :| Agrees(c, w, r, h, m, n);
    if h == r {
      AllHandled(c, w, r, h, m, n);
      CallsAreDeliveriesIff(c, w.blob + 1);
    } else {
      EndUnhandled(c, w, r, h, m, n);
    }
  }

  lemma EndUnhandled(c: Setup, w: World, r: nat, h: nat, m: nat, n: nat)
    requires c.Valid() && c.Ready() && Agrees(c, w, r, h, m, n) && w.sender.result == Some(Ok) && h + 1 == r
    ensures w.receiver.handler.capture && w.receiver.calls == c.Deliveries(w.blob)
    ensures BusyWith(w.receiver.phase, End(c.RouteOf(c.blobs[w.blob])))
  {
    hide Alternates, Setup.Ready, H.Run, Setup.Frames;
    var f := w.sender.frames;
    AllButEnd(c, w.blob);
    FrameAt(c, w.blob, |f| - 1);
    StreamUpTo(c, w.blob, |f| - 1);
    assert r == Position(c, w) == |c.Frames(w.blob)| + |f|;
    assert c.All()[h] == f[|f| - 1] == End(c.RouteOf(c.blobs[w.blob]));
  }

  /** At every moment, and so also when the sender has given up: with `g` frames of the stream acknowledged, the
      receiver has processed exactly the first `k`, each once and without a gap, where `k` is `g` or `g + 1` while
      it is listening; only a busy or stopped receiver can be one frame behind. */
  lemma UncertaintyIsOneFrame(c: Setup, ls: seq<Label>, w: World)
    requires c.Valid() && Execute(c, Start(c), ls) == Some(w)
    ensures w.blob < |c.blobs| && Position(c, w) <= |c.All()|
            && exists k: nat :: Processed(c, w, k) && WithinOneFrame(c, w, k)
  {
    hide ChannelsAgree, Execute, H.Run, Processed, ReceiverAgrees;
    InvariantAlways(c, ls);
    var r: nat, h: nat, m: nat, n: nat :| Agrees(c, w, r, h, m, n);
    CurrentFrame(c, w);
    InvariantTells(c, w, r, h, m, n);
  }

  /** Exactly the first `k` frames of the stream, each once. */
  predicate Processed(c: Setup, w: World, k: nat) {
    && k <= |c.All()|
    && w.receiver.handler == H.Run(c.start, c.All()[..k]).next && w.receiver.calls == H.Run(c.start, c.All()[..k]).calls
  }

  predicate WithinOneFrame(c: Setup, w: World, k: nat)
    requires w.blob < |c.blobs| && Position(c, w) <= |c.All()| && k <= |c.All()|
  {
    var g := Position(c, w);
    && g - 1 <= k <= g + 1
    && (k == g + 1 ==> w.sender.acked < |w.sender.frames|)
    && (k == g - 1 ==> BusyWith(w.receiver.phase, c.All()[k]))
  }

  lemma InvariantTells(c: Setup, w: World, r: nat, h: nat, m: nat, n: nat)
    requires c.Valid() && Agrees(c, w, r, h, m, n) && Position(c, w) <= |c.All()|
    ensures Processed(c, w, h) && WithinOneFrame(c, w, h)
  {
    hide H.Run, Alternates, Setup.Frames;
  }

  // ---- The two halves of a run are runs of the two automata the code is proved to follow ----

  /** What the label is at the sender's radio. */
  function SenderEvent(w: World, l: Label): Option<RadioEvent> {
    match l
    case Send(aired, status) =>
      if w.sender.acked < |w.sender.frames| then Some(Transmit(Encode(w.sender.frames[w.sender.acked]), aired, status))
      else None
    case SenderHears => if w.acks != [] && Arrives(w.acks[0]) then Some(Listen(Got(Received(w.acks[0])))) else None
    case SenderHearsGarbage => Some(Listen(Got(ZERO_PACKET)))
    case SenderHearsNothing(error) => Some(Listen(Silence(error)))
    case _ => None
  }

  /** What the label is to the receiver's loop. */
  function ReceiverEvent(w: World, l: Label): Option<RxEvent> {
    match l
    case ReceiverHears =>
      if w.data != [] && Arrives(w.data[0]) then Some(Radio(Listen(Got(Received(w.data[0]))))) else None
    case ReceiverHearsGarbage => Some(Radio(Listen(Got(ZERO_PACKET))))
    case ReceiverReplies(sent, outcome) =>
      if w.receiver.phase.Replying? then Some(Radio(Transmit(Encode(ReplyTo(w.receiver.phase.p)), sent, outcome)))
      else None
    case ReceiverHandles => Some(Handled)
    case _ => None
  }

  /** A step is the sender's automaton taking the sender's event, a new blob, or nothing to the sender. */
  lemma StepAtSender(c: Setup, w: World, l: Label)
    requires Do(c, w, l).Some?
    ensures var v := Do(c, w, l).value;
            match SenderEvent(w, l)
            case Some(e) => NextSender(w.sender, e) == Some(v.sender) && v.blob == w.blob
            case None =>
              if l == NextBlob then
                v.blob == w.blob + 1 < |c.blobs| && v.sender == StartSender(c.FramesOf(c.blobs[v.blob]))
              else v.sender == w.sender && v.blob == w.blob
  {
  }

  lemma StepAtReceiver(c: Setup, w: World, l: Label)
    requires Do(c, w, l).Some?
    ensures var v := Do(c, w, l).value;
            match ReceiverEvent(w, l)
            case Some(e) => NextReceiver(w.receiver, e) == Some(v.receiver)
            case None => v.receiver == w.receiver
  {
  }

  /** What a FIFO channel can hand over: its oldest frame, or garbage. Frames lost before it are other labels. */
  predicate CanHear(channel: seq<Frame>, reply: Reception) {
    reply.Got? ==>
      reply.packet == ZERO_PACKET || (channel != [] && Arrives(channel[0]) && reply.packet == Received(channel[0]))
  }

  /** The label that is the given event. */
  function SenderLabel(e: RadioEvent): Label {
    match e
    case Transmit(frame, aired, status) => Send(aired, status)
    case Listen(Silence(error)) => SenderHearsNothing(error)
    case Listen(Got(p)) => if p == ZERO_PACKET then SenderHearsGarbage else SenderHears
  }

  function ReceiverLabel(e: RxEvent): Label {
    match e
    case Handled => ReceiverHandles
    case Radio(Transmit(frame, aired, status)) => ReceiverReplies(aired, status)
    case Radio(Listen(reply)) =>
      if reply == Got(ZERO_PACKET) then ReceiverHearsGarbage else ReceiverHears
  }

  /** Nothing the code can do is missing from the system: whatever event the sender's automaton can take next, if the
      channel can hand over what it hears, its label is enabled and is that event. */
  lemma EverySenderStepIsALabel(c: Setup, w: World, e: RadioEvent)
    requires NextSender(w.sender, e).Some?
    requires e.Listen? ==> CanHear(w.acks, e.reply)
    ensures Do(c, w, SenderLabel(e)).Some? && SenderEvent(w, SenderLabel(e)) == Some(e)
  {
    hide Encode, Received, Accepts;
  }

  lemma EveryReceiverStepIsALabel(c: Setup, w: World, e: RxEvent)
    requires NextReceiver(w.receiver, e).Some?
    requires e.Radio? && e.e.Listen? ==> CanHear(w.data, e.e.reply)
    ensures Do(c, w, ReceiverLabel(e)).Some? && ReceiverEvent(w, ReceiverLabel(e)) == Some(e)
  {
    hide Encode, Received, H.Step;
  }

  /** The sender's events since the current blob was begun. */
  function SenderEvents(c: Setup, ls: seq<Label>): seq<RadioEvent>
    requires c.Valid() && Execute(c, Start(c), ls).Some?
  {
    if ls == [] then []
    else
      var before := ls[..|ls| - 1];
      var l := ls[|ls| - 1];
      if l == NextBlob then []
      else
        match SenderEvent(Execute(c, Start(c), before).value, l)
        case Some(e) => SenderEvents(c, before) + [e]
        case None => SenderEvents(c, before)
  }

  function ReceiverEvents(c: Setup, ls: seq<Label>): seq<RxEvent>
    requires c.Valid() && Execute(c, Start(c), ls).Some?
  {
    if ls == [] then []
    else
      var before := ls[..|ls| - 1];
      match ReceiverEvent(Execute(c, Start(c), before).value, ls[|ls| - 1])
      case Some(e) => ReceiverEvents(c, before) + [e]
      case None => ReceiverEvents(c, before)
  }

  lemma {:induction false} SenderProjection(c: Setup, ls: seq<Label>)
    requires c.Valid() && Execute(c, Start(c), ls).Some?
    ensures var w := Execute(c, Start(c), ls).value;
            && w.blob < |c.blobs|
            && SenderRun(c.FramesOf(c.blobs[w.blob]), SenderEvents(c, ls)) == Some(w.sender)
    decreases |ls|
  {
    if ls != [] {
      var before := ls[..|ls| - 1];
      var l := ls[|ls| - 1];
      SenderProjection(c, before);
      var w := Execute(c, Start(c), before).value;
      StepAtSender(c, w, l);
      if SenderEvent(w, l).Some? {
        SenderSnoc(c.FramesOf(c.blobs[w.blob]), SenderEvents(c, before), SenderEvent(w, l).value);
      }
    }
  }

  lemma {:induction false} ReceiverProjection(c: Setup, ls: seq<Label>)
    requires c.Valid() && Execute(c, Start(c), ls).Some?
    ensures ReceiverRun(Receiver(c.start, [], Listening), ReceiverEvents(c, ls))
              == Some(Execute(c, Start(c), ls).value.receiver)
    decreases |ls|
  {
    if ls != [] {
      var before := ls[..|ls| - 1];
      var l := ls[|ls| - 1];
      ReceiverProjection(c, before);
      var w := Execute(c, Start(c), before).value;
      StepAtReceiver(c, w, l);
      if ReceiverEvent(w, l).Some? {
        ReceiverSnoc(Receiver(c.start, [], Listening), ReceiverEvents(c, before), ReceiverEvent(w, l).value);
      }
    }
  }
}
