/** The protocol does what it is for when the radio lets it: for every setup there is a run, without a single
    retransmission, that delivers every blob. */
module Progress {
  import opened Packets
  import opened Codec
  import opened Protocol
  import opened Fragments
  import opened Stream
  import opened Arq
  import opened Delivery
  import H = Handler

  lemma ExecuteSnoc(c: Setup, w: World, ls: seq<Label>, l: Label)
    ensures Execute(c, w, ls + [l]) == match Execute(c, w, ls) case None => None case Some(v) => Do(c, v, l)
  {
    assert (ls + [l])[..|ls|] == ls;
  }

  lemma {:induction false} ExecuteAppend(c: Setup, w: World, ls: seq<Label>, ks: seq<Label>)
    ensures Execute(c, w, ls + ks) == match Execute(c, w, ls) case None => None case Some(v) => Execute(c, v, ks)
    decreases |ks|
  {
    if ks == [] {
      assert ls + ks == ls;
    } else {
      ExecuteAppend(c, w, ls, ks[..|ks| - 1]);
      assert (ls + ks)[..|ls + ks| - 1] == ls + ks[..|ks| - 1];
    }
  }

  /** Nothing under way, nobody waiting. */
  predicate Quiet(c: Setup, w: World) {
    && SenderAgrees(c, w) && w.data == [] && w.acks == [] && w.receiver.phase == Listening
    && w.sender.exchange == StartExchange(BURST_TRIES)
    && (w.sender.result == None || w.sender.result == Some(Ok))
  }

  /** One frame sent, heard, acknowledged, handled, and the acknowledgement heard. */
  const ONE_FRAME := [Send(true, Ok), ReceiverHears, ReceiverReplies(true, Ok), ReceiverHandles, SenderHears]

  /** Five steps, one after the other. */
  lemma FiveSteps(c: Setup, w0: World, w1: World, w2: World, w3: World, w4: World, w5: World)
    requires Do(c, w0, Send(true, Ok)) == Some(w1)
    requires Do(c, w1, ReceiverHears) == Some(w2)
    requires Do(c, w2, ReceiverReplies(true, Ok)) == Some(w3)
    requires Do(c, w3, ReceiverHandles) == Some(w4)
    requires Do(c, w4, SenderHears) == Some(w5)
    ensures Execute(c, w0, ONE_FRAME) == Some(w5)
  {
    var ls := ONE_FRAME;
    assert ls[..0] == [];
    assert ls[..1] == ls[..0] + [ls[0]] && ls[..2] == ls[..1] + [ls[1]] && ls[..3] == ls[..2] + [ls[2]];
    assert ls[..4] == ls[..3] + [ls[3]] && ls == ls[..4] + [ls[4]];
    ExecuteSnoc(c, w0, ls[..0], ls[0]);
    ExecuteSnoc(c, w0, ls[..1], ls[1]);
    ExecuteSnoc(c, w0, ls[..2], ls[2]);
    ExecuteSnoc(c, w0, ls[..3], ls[3]);
    ExecuteSnoc(c, w0, ls[..4], ls[4]);
  }

  /** The world once that is done. */
  function AfterOneFrame(w: World, p: Packet): World {
    var handled := H.Step(w.receiver.handler, p);
    World(w.blob, AfterFrame(w.sender), [], Receiver(handled.next, w.receiver.calls + handled.calls, Listening), [])
  }

  lemma FrameTravels(c: Setup, w: World, p: Packet)
    requires c.Valid() && SenderAgrees(c, w)
    requires w.sender.acked < |w.sender.frames| && p == w.sender.frames[w.sender.acked]
    ensures Arrives(Encode(p)) && Received(Encode(p)) == p
    ensures Arrives(Encode(ReplyTo(p))) && Received(Encode(ReplyTo(p))) == ReplyTo(p)
  {
    CurrentFrame(c, w);
    StreamFrame(c, Position(c, w));
  }

  lemma OneFrameRuns(c: Setup, w: World, p: Packet)
    requires c.Valid() && Quiet(c, w) && w.sender.acked < |w.sender.frames| && p == w.sender.frames[w.sender.acked]
    ensures Execute(c, w, ONE_FRAME) == Some(AfterOneFrame(w, p))
  {
    FrameTravels(c, w, p);
    FirstSteps(c, w, p);
    MiddleSteps(c, w, p);
    LastSteps(c, w, p);
    FiveSteps(c, w, Sent(w, p), Heard(w, p), Replied(w, p), ReceiverDone(w, p), AfterOneFrame(w, p));
  }

  lemma OneFrame(c: Setup, w: World)
    requires c.Valid() && Quiet(c, w) && w.sender.acked < |w.sender.frames|
    ensures Execute(c, w, ONE_FRAME).Some?
    ensures var v := Execute(c, w, ONE_FRAME).value;
            Quiet(c, v) && v.blob == w.blob && v.sender.acked == w.sender.acked + 1
  {
    OneFrameRuns(c, w, w.sender.frames[w.sender.acked]);
  }

  function AfterFrame(s: Sender): Sender {
    Sender(s.frames, s.acked + 1, StartExchange(BURST_TRIES), if s.acked + 1 == |s.frames| then Some(Ok) else None)
  }

  // The worlds in between.

  function Sent(w: World, p: Packet): World {
    w.(sender := w.sender.(exchange := Exchange(0, true, None)), data := [Encode(p)])
  }

  function Heard(w: World, p: Packet): World {
    Sent(w, p).(data := [], receiver := w.receiver.(phase := Replying(p)))
  }

  function Replied(w: World, p: Packet): World {
    Heard(w, p).(acks := [Encode(ReplyTo(p))], receiver := w.receiver.(phase := Handling(p)))
  }

  function ReceiverDone(w: World, p: Packet): World {
    Replied(w, p).(receiver := AfterOneFrame(w, p).receiver)
  }

  lemma FirstSteps(c: Setup, w: World, p: Packet)
    requires Quiet(c, w) && w.sender.acked < |w.sender.frames| && p == w.sender.frames[w.sender.acked]
    requires Arrives(Encode(p)) && Received(Encode(p)) == p
    ensures Do(c, w, Send(true, Ok)) == Some(Sent(w, p))
    ensures Do(c, Sent(w, p), ReceiverHears) == Some(Heard(w, p))
  {
    var frame := [Encode(p)];
    assert [] + frame == frame && frame[1..] == [];
  }

  lemma MiddleSteps(c: Setup, w: World, p: Packet)
    requires Quiet(c, w)
    ensures Do(c, Heard(w, p), ReceiverReplies(true, Ok)) == Some(Replied(w, p))
    ensures Do(c, Replied(w, p), ReceiverHandles) == Some(ReceiverDone(w, p))
  {
    var reply := [Encode(ReplyTo(p))];
    assert [] + reply == reply;
  }

  lemma LastSteps(c: Setup, w: World, p: Packet)
    requires c.Valid() && Quiet(c, w) && w.sender.acked < |w.sender.frames| && p == w.sender.frames[w.sender.acked]
    requires Arrives(Encode(ReplyTo(p))) && Received(Encode(ReplyTo(p))) == ReplyTo(p)
    ensures Do(c, ReceiverDone(w, p), SenderHears) == Some(AfterOneFrame(w, p))
  {
    hide Accepts, Encode, Expected, Received;
    ReplyAccepted(c, w, p);
    assert ReceiverDone(w, p).acks[1..] == [];
  }

  /** The receiver has processed exactly what the sender knows to be acknowledged. */
  predicate InStep(c: Setup, w: World) {
    Quiet(c, w) && Processed(c, w, Position(c, w))
  }

  lemma OneFrameInStep(c: Setup, w: World)
    requires c.Valid() && InStep(c, w) && w.sender.acked < |w.sender.frames|
    ensures Execute(c, w, ONE_FRAME).Some? && InStep(c, Execute(c, w, ONE_FRAME).value)
  {
    hide Do, Execute, H.Run, H.Step, Setup.Frames, Setup.Valid;
    OneFrame(c, w);
    OneFrameRuns(c, w, w.sender.frames[w.sender.acked]);
    CurrentFrame(c, w);
    OneMoreFrame(c.start, c.All(), Position(c, w));
  }

  /** The next frames of the current blob, until `k` of its frames are acknowledged. */
  lemma {:induction false} FramesUpTo(c: Setup, w: World, k: nat) returns (ls: seq<Label>)
    requires c.Valid() && Quiet(c, w) && w.sender.acked <= k <= |w.sender.frames|
    ensures Execute(c, w, ls).Some?
    ensures var v := Execute(c, w, ls).value;
            Quiet(c, v) && v.blob == w.blob && v.sender.acked == k && (InStep(c, w) ==> InStep(c, v))
    decreases k - w.sender.acked
  {
    if w.sender.acked == k {
      return [];
    }
    OneFrame(c, w);
    if InStep(c, w) {
      OneFrameInStep(c, w);
    }
    var v := Execute(c, w, ONE_FRAME).value;
    var rest := FramesUpTo(c, v, k);
    ExecuteAppend(c, w, ONE_FRAME, rest);
    return ONE_FRAME + rest;
  }

  /** All blobs from the current one on. */
  lemma {:induction false} RestOfRun(c: Setup, w: World) returns (ls: seq<Label>)
    requires c.Valid() && Quiet(c, w)
    ensures Execute(c, w, ls).Some?
    ensures var v := Execute(c, w, ls).value;
            Quiet(c, v) && v.blob == |c.blobs| - 1 && v.sender.result == Some(Ok)
    decreases |c.blobs| - w.blob
  {
    hide Execute, H.Run, H.Step, InStep, Setup.FramesOf, Setup.Ready;
    ls := FramesUpTo(c, w, |w.sender.frames|);
    var v := Execute(c, w, ls).value;
    if v.blob < |c.blobs| - 1 {
      ExecuteSnoc(c, w, ls, NextBlob);
      var next := Do(c, v, NextBlob).value;
      OneBlobNeighbours(c, c.blobs[next.blob]);
      var rest := RestOfRun(c, next);
      ExecuteAppend(c, w, ls + [NextBlob], rest);
      ls := ls + [NextBlob] + rest;
    }
  }

  /** Every setup has a run in which every blob is delivered. */
  lemma EverythingCanBeDelivered(c: Setup)
    requires c.Valid() && c.Ready()
    ensures exists ls :: Execute(c, Start(c), ls).Some?
                         && Execute(c, Start(c), ls).value.receiver.calls == c.Deliveries(|c.blobs|)
  {
    OneBlobNeighbours(c, c.blobs[0]);
    var ls := RestOfRun(c, Start(c));
    AtTheEnd(c, ls);
  }

  lemma AtTheEnd(c: Setup, ls: seq<Label>)
    requires c.Valid() && c.Ready() && Execute(c, Start(c), ls).Some?
    requires var w := Execute(c, Start(c), ls).value;
             Quiet(c, w) && w.blob == |c.blobs| - 1 && w.sender.result == Some(Ok)
    ensures Execute(c, Start(c), ls).value.receiver.calls == c.Deliveries(|c.blobs|)
  {
    SuccessMeansDelivered(c, ls, Execute(c, Start(c), ls).value);
  }

  // ---- A success that is none ----

  /** A frame heard and acknowledged, but the receiver's radio reports an error after the acknowledgement went out. */
  const ACK_FAILS_LATE := [Send(true, Ok), ReceiverHears, ReceiverReplies(true, Timeout), SenderHears]

  function Halted(w: World, p: Packet): World {
    Heard(w, p).(acks := [Encode(ReplyTo(p))], receiver := w.receiver.(phase := Stopped(Timeout)))
  }

  function AfterHalt(w: World): World {
    w.(sender := AfterFrame(w.sender), receiver := w.receiver.(phase := Stopped(Timeout)))
  }

  lemma LateFailureRuns(c: Setup, w: World)
    requires c.Valid() && Quiet(c, w) && w.sender.acked < |w.sender.frames|
    ensures Execute(c, w, ACK_FAILS_LATE) == Some(AfterHalt(w))
  {
    var p := w.sender.frames[w.sender.acked];
    FrameTravels(c, w, p);
    FirstSteps(c, w, p);
    HaltSteps(c, w, p);
    FourSteps(c, w, Sent(w, p), Heard(w, p), Halted(w, p), AfterHalt(w));
  }

  lemma FourSteps(c: Setup, w0: World, w1: World, w2: World, w3: World, w4: World)
    requires Do(c, w0, Send(true, Ok)) == Some(w1)
    requires Do(c, w1, ReceiverHears) == Some(w2)
    requires Do(c, w2, ReceiverReplies(true, Timeout)) == Some(w3)
    requires Do(c, w3, SenderHears) == Some(w4)
    ensures Execute(c, w0, ACK_FAILS_LATE) == Some(w4)
  {
    var ls := ACK_FAILS_LATE;
    assert ls[..0] == [];
    assert ls[..1] == ls[..0] + [ls[0]] && ls[..2] == ls[..1] + [ls[1]] && ls[..3] == ls[..2] + [ls[2]];
    assert ls == ls[..3] + [ls[3]];
    ExecuteSnoc(c, w0, ls[..0], ls[0]);
    ExecuteSnoc(c, w0, ls[..1], ls[1]);
    ExecuteSnoc(c, w0, ls[..2], ls[2]);
    ExecuteSnoc(c, w0, ls[..3], ls[3]);
  }

  lemma HaltSteps(c: Setup, w: World, p: Packet)
    requires c.Valid() && Quiet(c, w) && w.sender.acked < |w.sender.frames| && p == w.sender.frames[w.sender.acked]
    requires Arrives(Encode(ReplyTo(p))) && Received(Encode(ReplyTo(p))) == ReplyTo(p)
    ensures Do(c, Heard(w, p), ReceiverReplies(true, Timeout)) == Some(Halted(w, p))
    ensures Do(c, Halted(w, p), SenderHears) == Some(AfterHalt(w))
  {
    HaltingReply(c, w, p);
    ReplyAccepted(c, w, p);
    HaltedSenderHears(c, w, p);
  }

  lemma HaltingReply(c: Setup, w: World, p: Packet)
    requires Quiet(c, w)
    ensures Do(c, Heard(w, p), ReceiverReplies(true, Timeout)) == Some(Halted(w, p))
  {
    var reply := [Encode(ReplyTo(p))];
    assert [] + reply == reply;
  }

  lemma ReplyAccepted(c: Setup, w: World, p: Packet)
    requires c.Valid() && SenderAgrees(c, w)
    requires w.sender.acked < |w.sender.frames| && p == w.sender.frames[w.sender.acked]
    ensures Accepts(p, Expected(w.sender.acked, |w.sender.frames|), ReplyTo(p))
  {
    var b := c.blobs[w.blob];
    assert b in c.blobs;
    ScheduleFitsIff(c.RouteOf(b), b.data);
    assert Passable(w.sender.frames, w.sender.acked);
    AcceptsOnlyItsReply(p, Expected(w.sender.acked, |w.sender.frames|), ReplyTo(p));
  }

  lemma HaltedSenderHears(c: Setup, w: World, p: Packet)
    requires Quiet(c, w) && w.sender.acked < |w.sender.frames| && p == w.sender.frames[w.sender.acked]
    requires Arrives(Encode(ReplyTo(p))) && Received(Encode(ReplyTo(p))) == ReplyTo(p)
    requires Accepts(p, Expected(w.sender.acked, |w.sender.frames|), ReplyTo(p))
    ensures Do(c, Halted(w, p), SenderHears) == Some(AfterHalt(w))
  {
    hide Accepts, Encode, Expected, Received;
    assert [Encode(ReplyTo(p))][1..] == [];
  }

  /** For every setup there is a run in which the sender reports success for the first blob, and the receiver, having
      acknowledged END, has stopped without handling it: the blob is captured and never delivered. */
  lemma SuccessWithoutDelivery(c: Setup)
    requires c.Valid() && c.Ready()
    ensures exists ls ::
              && Execute(c, Start(c), ls).Some?
              && var w := Execute(c, Start(c), ls).value;
                 w.sender.result == Some(Ok) && w.receiver.phase == Stopped(Timeout) && w.receiver.calls == []
  {
    OneBlobNeighbours(c, c.blobs[0]);
    var w := Start(c);
    var n := |w.sender.frames|;
    assert c.All()[..0] == [];
    var ls := FramesUpTo(c, w, n - 1);
    var v := Execute(c, w, ls).value;
    LateFailureRuns(c, v);
    ExecuteAppend(c, w, ls, ACK_FAILS_LATE);
    NothingCalledYet(c, v);
    assert Execute(c, w, ls + ACK_FAILS_LATE) == Some(AfterHalt(v));
  }

  lemma NothingCalledYet(c: Setup, w: World)
    requires c.Valid() && c.Ready() && InStep(c, w) && w.blob == 0 && w.sender.acked == |w.sender.frames| - 1
    ensures w.receiver.calls == []
  {
    var f := w.sender.frames;
    AllButEnd(c, 0);
    StreamUpTo(c, 0, |f| - 1);
    assert Position(c, w) == |c.Frames(0)| + |f| - 1;
  }
}
