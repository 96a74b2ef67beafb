/** A burst that meets a handler still capturing, because an earlier one was given up: what sending again does. */
module Resumption {
  import opened Packets
  import opened Handler
  import opened Captures
  import opened Fragments

  /** What was captured before, completed with the rest of `ds`. */
  function Completed(before: seq<Packet>, ds: seq<Packet>): (ps: seq<Packet>)
    ensures |ps| >= |before| && |ps| >= |ds|
  {
    if |ds| <= |before| then before else before + ds[|before|..]
  }

  lemma CompletedIff(before: seq<Packet>, ds: seq<Packet>)
    ensures Completed(before, ds) == ds <==> before <= ds
  {
    if before <= ds {
      assert ds[..|before|] + ds[|before|..] == ds;
    } else {
      assert Completed(before, ds)[..|before|] == before;
    }
  }

  /** A handler in the middle of a capture that has just seen the BEGIN of a burst on its link. */
  predicate Reopened(s: State, r: Route) {
    s.configured && WellFormed(s) && s.capture && Addressed(s, r) && s.last == Key(r.ackId, 0)
  }

  /** Frames up to the end of the old capture are refused, the others captured as if nothing had happened. */
  lemma {:induction false} SameIdFragments(s: State, r: Route, ds: seq<Packet>)
    requires Reopened(s, r) && s.captureAckId == r.ackId && BurstData(s, r.ackId, ds)
    ensures Run(s, ds).next == s.(captured := Completed(s.captured, ds), last := Key(r.ackId, |ds|))
    ensures Run(s, ds).calls == []
    decreases |ds|
  {
    hide Step;
    if ds != [] {
      var k := |ds| - 1;
      SameIdFragments(s, r, ds[..k]);
      SameIdFragment(s, r, ds);
    }
  }

  lemma SameIdFragment(s: State, r: Route, ds: seq<Packet>)
    requires Reopened(s, r) && s.captureAckId == r.ackId && BurstData(s, r.ackId, ds) && ds != []
    ensures var before := ds[..|ds| - 1];
            var n := s.(captured := Completed(s.captured, before), last := Key(r.ackId, |before|));
            && Step(n, ds[|ds| - 1]).next == s.(captured := Completed(s.captured, ds), last := Key(r.ackId, |ds|))
            && Step(n, ds[|ds| - 1]).calls == []
  {
    var k := |ds| - 1;
    assert ds[..k] + [ds[k]] == ds;
    assert k >= |s.captured| ==> Completed(s.captured, ds) == Completed(s.captured, ds[..k]) + [ds[k]];
  }

  /** Under another ack id every fragment is a command. */
  lemma {:induction false} OtherIdFragments(s: State, r: Route, ds: seq<Packet>)
    requires Reopened(s, r) && s.captureAckId != r.ackId && BurstData(s, r.ackId, ds)
    ensures Run(s, ds).next == s.(last := Key(r.ackId, |ds|))
    ensures Run(s, ds).calls == Commands(ds)
    decreases |ds|
  {
    if ds != [] {
      var k := |ds| - 1;
      OtherIdFragments(s, r, ds[..k]);
      assert ds[..k] + [ds[k]] == ds;
      CommandsSnoc(ds[..k], ds[k]);
    }
  }

  /** A whole burst, in order, to a handler in the middle of a capture. Under the capture's own ack id it completes
      the capture; under another its fragments become commands and its END, whose ack id nobody compares, ends the
      old capture. */
  lemma BurstDuringCapture(s: State, r: Route, data: seq<byte>)
    requires WellFormed(s) && s.capture && Addressed(s, r) && Fits(data)
    ensures var ds := DataPackets(r, data, 1);
            var q := Run(s, Framed(r, data));
            && q.next == Cleared(s).(last := Key(r.ackId, SEQ_END))
            && q.calls == if s.captureAckId == r.ackId then [Delivered(Completed(s.captured, ds))]
                          else Commands(ds) + [Delivered(s.captured)]
  {
    hide Commands, Completed, DataPackets, Run;
    var ds := DataPackets(r, data, 1);
    var open := Step(s, Begin(r)).next;
    assert open == s.(last := Key(r.ackId, 0));
    FragmentsAreBurstData(open, r, data);
    FramedRun(s, r, data);
    if s.captureAckId == r.ackId {
      SameIdFragments(open, r, ds);
    } else {
      OtherIdFragments(open, r, ds);
    }
    var b := Run(open, ds);
    assert Step(b.next, End(r)).calls == [Delivered(b.next.captured)];
    assert [] + b.calls == b.calls;
    assert s.captureAckId == r.ackId ==> b.calls + [Delivered(b.next.captured)] == [Delivered(b.next.captured)];
  }

  /** Sending the same blob again after giving up: whatever prefix of it the receiver had captured, it is delivered
      once and whole. */
  lemma ResendingCompletes(s: State, r: Route, data: seq<byte>, k: nat)
    requires WellFormed(s) && s.capture && Addressed(s, r) && Fits(data) && s.captureAckId == r.ackId
    requires k <= FragmentCount(|data|) && s.captured == DataPackets(r, data, 1)[..k]
    ensures Run(s, Framed(r, data)).calls == [Delivered(DataPackets(r, data, 1))]
    ensures Idle(Run(s, Framed(r, data)).next)
  {
    var ds := DataPackets(r, data, 1);
    BurstDuringCapture(s, r, data);
    CompletedIff(s.captured, ds);
  }

  /** An idle handler must not just have seen the BEGIN's key; one in a capture must have captured a prefix of this
      very burst, or nothing when the burst is empty. */
  predicate Deliverable(s: State, r: Route, data: seq<byte>) {
    if !s.capture then s.last != Key(r.ackId, 0)
    else if s.captureAckId == r.ackId then s.captured <= DataPackets(r, data, 1)
    else s.captured == DataPackets(r, data, 1) == []
  }

  /** Exactly when a whole burst, presented in order to a handler in any reachable state, is delivered. */
  lemma AnyBurstIsDeliveredIff(s: State, r: Route, data: seq<byte>)
    requires WellFormed(s) && Addressed(s, r) && Fits(data)
    ensures Delivered(DataPackets(r, data, 1)) in Run(s, Framed(r, data)).calls <==> Deliverable(s, r, data)
  {
    var ds := DataPackets(r, data, 1);
    if !s.capture {
      BurstIsDeliveredIff(s, r, data);
    } else {
      BurstDuringCapture(s, r, data);
      CompletedIff(s.captured, ds);
      if s.captureAckId != r.ackId && s.captured != [] && ds != [] {
        assert s.captured[0].ackId != ds[0].ackId;
      }
    }
  }

  /** Up to its END, such a burst has been captured and nothing been called. */
  lemma DeliverableUpToEnd(s: State, r: Route, data: seq<byte>)
    requires WellFormed(s) && Addressed(s, r) && Fits(data) && Deliverable(s, r, data)
    ensures var ds := DataPackets(r, data, 1);
            var q := Run(s, [Begin(r)] + ds);
            q.calls == [] && q.next.capture && q.next.captured == ds
  {
    var ds := DataPackets(r, data, 1);
    var open := Step(s, Begin(r)).next;
    RunOne(s, Begin(r));
    RunAppend(s, [Begin(r)], ds);
    FragmentsAreBurstData(open, r, data);
    if !s.capture {
      InOrderCapture(open, ds);
    } else if s.captureAckId == r.ackId {
      SameIdFragments(open, r, ds);
      CompletedIff(s.captured, ds);
    }
  }

  /** At END it is delivered, and nothing else is called at all. */
  lemma DeliverableBurst(s: State, r: Route, data: seq<byte>)
    requires WellFormed(s) && Addressed(s, r) && Fits(data) && Deliverable(s, r, data)
    ensures Run(s, Framed(r, data)).calls == [Delivered(DataPackets(r, data, 1))]
  {
    if !s.capture {
      BurstIsDelivered(s, r, data);
    } else {
      BurstDuringCapture(s, r, data);
      CompletedIff(s.captured, DataPackets(r, data, 1));
    }
  }

  /** Whatever the handler was busy with, after a whole burst it is idle, and has just seen the burst's END. */
  lemma IdleAfterAnyBurst(s: State, r: Route, data: seq<byte>)
    requires WellFormed(s) && Addressed(s, r) && Fits(data)
    ensures Run(s, Framed(r, data)).next == Cleared(s).(last := Key(r.ackId, SEQ_END))
    ensures Idle(Run(s, Framed(r, data)).next)
  {
    if s.capture {
      BurstDuringCapture(s, r, data);
    } else if Deliverable(s, r, data) {
      BurstIsDelivered(s, r, data);
    } else {
      UnopenedBurst(s, r, data);
    }
  }

  /** A blob sent under a new ack id after an earlier burst was given up, here after its BEGIN, is not delivered: its
      fragments go to the command callback and its END delivers what the earlier burst had left. */
  lemma AbandonedBurstMisleads()
    ensures var s := Run(Initial(2, 1), [Begin(Route(2, 1, 7))]).next;
            var r := Route(2, 1, 8);
            && WellFormed(s) && Addressed(s, r) && Fits([42])
            && Run(s, Framed(r, [42])).calls == [Command(Packet(2, 1, 8, 1, [42])), Delivered([])]
  {
    hide Run;
    RunOne(Initial(2, 1), Begin(Route(2, 1, 7)));
    var s := Run(Initial(2, 1), [Begin(Route(2, 1, 7))]).next;
    assert s == Initial(2, 1).(capture := true, captureAckId := 7, last := Key(7, 0));
    var r := Route(2, 1, 8);
    BurstDuringCapture(s, r, [42]);
    var chunk := Chunk([42], 0);
    assert chunk == [42];
    assert DataPackets(r, [42], 1) == [Packet(2, 1, 8, 1, chunk)];
    assert Commands(DataPackets(r, [42], 1)) == [Command(Packet(2, 1, 8, 1, [42]))];
  }
}
