/** The receive handler (rx_packet_handler.c) as a state machine on values: one packet in, a new state,
    a return code and the callbacks made. */
module Handler {
  import opened Packets

  /** PACKET_CAPTURE_MAX_COUNT */
  const CAPTURE_MAX := 254

  /** rx_handler_return */
  datatype Return =
    | PacketRejected | CommandPacket | CaptureBegin | CaptureEnd | CaptureArrayFull | DataCaptured
    | CaptureAlreadyOn | UnknownPacket | NullPacket | CaptureNotOn | PacketRedundant | NotConfigured

  datatype Callback =
    | Command(p: Packet)
    | Delivered(ps: seq<Packet>)

  function Commands(ps: seq<Packet>): (calls: seq<Callback>)
    ensures |calls| == |ps|
  {
    seq(|ps|, i requires 0 <= i < |ps| => Command(ps[i]))
  }

  lemma CommandsSnoc(ps: seq<Packet>, p: Packet)
    ensures Commands(ps + [p]) == Commands(ps) + [Command(p)]
  {
  }

  datatype State = State(
    configured: bool,
    host: word,
    remote: word,
    capture: bool,
    captureAckId: byte,
    captured: seq<Packet>,
    last: Key)

  datatype Outcome = Outcome(next: State, ret: Return, calls: seq<Callback>)

  /** The state after `rx_handler_init`. */
  function Initial(host: word, remote: word): State {
    State(true, host, remote, false, 0, [], Key(0, 0))
  }

  function Cleared(s: State): State {
    s.(capture := false, captured := [], captureAckId := 0)
  }

  /** What every state reachable from `Initial` satisfies. */
  predicate WellFormed(s: State) {
    && |s.captured| <= CAPTURE_MAX
    && (forall k | 0 <= k < |s.captured| ::
          s.captured[k].ackId == s.captureAckId && s.captured[k].seqNo == k + 1 && s.captured[k].payload != [])
    && (!s.capture ==> s.captured == [] && s.captureAckId == 0)
  }

  predicate Idle(s: State) {
    s.configured && !s.capture && s.captured == [] && s.captureAckId == 0
  }

  predicate Passes(s: State, p: Packet) {
    p.dest == s.host && p.src == s.remote
  }

  function Step(s: State, p: Packet): Outcome {
    if !s.configured then Outcome(s, NotConfigured, [])
    else if !Passes(s, p) then Outcome(s, PacketRejected, [])
    else if KeyOf(p) == s.last then Outcome(s, PacketRedundant, [])
    else Dispatch(s.(last := KeyOf(p)), p)
  }

  /** The switch on the packet type, once the duplicate check has let the packet through. */
  function Dispatch(s: State, p: Packet): Outcome {
    match TypeOf(p)
    case BeginType =>
      if !s.capture then Outcome(Cleared(s).(capture := true, captureAckId := p.ackId), CaptureBegin, [])
      else Outcome(s, CaptureAlreadyOn, [])
    case DataType =>
      if s.capture && p.ackId == s.captureAckId then
        if |s.captured| >= CAPTURE_MAX then Outcome(s, CaptureArrayFull, [])
        else if p.seqNo != |s.captured| + 1 then Outcome(s, PacketRejected, [])
        else Outcome(s.(captured := s.captured + [p]), DataCaptured, [])
      else if p.ackId != s.captureAckId then Outcome(s, CommandPacket, [Command(p)])
      else Outcome(s, PacketRejected, [])
    case EndType =>
      if !s.capture then Outcome(s, CaptureNotOn, [])
      else Outcome(Cleared(s), CaptureEnd, [Delivered(s.captured)])
    case AckType => Outcome(s, UnknownPacket, [])
  }

  /** What the caller can read off the return code: each of the four codes that report an effect stands for exactly
      that effect, and with any other code nothing but the duplicate key can have changed. */
  lemma ReturnTellsEffect(s: State, p: Packet)
    ensures var o := Step(s, p);
            var seen := s.(last := Key(p.ackId, p.seqNo));
            && (o.ret == DataCaptured ==> o.next == seen.(captured := s.captured + [p]) && o.calls == [])
            && (o.ret == CaptureBegin ==>
                  o.next == seen.(capture := true, captureAckId := p.ackId, captured := []) && o.calls == [])
            && (o.ret == CaptureEnd ==>
                  && o.next == seen.(capture := false, captureAckId := 0, captured := [])
                  && o.calls == [Delivered(s.captured)])
            && (o.ret == CommandPacket ==> o.next == seen && o.calls == [Command(p)])
            && (o.ret in {CaptureArrayFull, CaptureAlreadyOn, CaptureNotOn, UnknownPacket} ==>
                  o.next == seen && o.calls == [])
            && (o.ret in {NotConfigured, PacketRedundant} ==> o.next == s && o.calls == [])
            && (o.ret == PacketRejected ==>
                  o.next == (if p.dest == s.host && p.src == s.remote then seen else s) && o.calls == [])
            && o.ret != NullPacket
  {
  }

  /** And the effect tells the code. */
  lemma EffectTellsReturn(s: State, p: Packet)
    ensures var o := Step(s, p);
            && (o.ret == DataCaptured <==> o.next.captured == s.captured + [p])
            && (o.ret == CaptureBegin <==> !s.capture && o.next.capture)
            && (o.ret == CaptureEnd <==> s.capture && !o.next.capture)
            && (o.ret == CaptureEnd <==> o.calls == [Delivered(s.captured)])
            && (o.ret == CommandPacket <==> o.calls == [Command(p)])
  {
    assert |s.captured + [p]| != |s.captured|;
  }

  /** Which packets get which return code, in terms of the packet and the context alone. */
  lemma ReturnCodeIff(s: State, p: Packet)
    ensures var ret := Step(s, p).ret;
            var own := s.configured && p.dest == s.host && p.src == s.remote;
            var isNew := own && !(p.ackId == s.last.ackId && p.seqNo == s.last.seqNo);
            var next := s.capture && p.ackId == s.captureAckId && p.payload != [] && |s.captured| < 254;
            && (ret == NotConfigured <==> !s.configured)
            && (ret == PacketRedundant <==> own && !isNew)
            && (ret == CaptureBegin <==> isNew && p.seqNo == 0 && p.payload == [] && !s.capture)
            && (ret == CaptureAlreadyOn <==> isNew && p.seqNo == 0 && p.payload == [] && s.capture)
            && (ret == CaptureEnd <==> isNew && p.seqNo == 255 && p.payload == [] && s.capture)
            && (ret == CaptureNotOn <==> isNew && p.seqNo == 255 && p.payload == [] && !s.capture)
            && (ret == UnknownPacket <==> isNew && p.seqNo != 0 && p.seqNo != 255 && p.payload == [])
            && (ret == DataCaptured <==> isNew && next && p.seqNo == |s.captured| + 1)
            && (ret == CaptureArrayFull <==>
                  isNew && s.capture && p.ackId == s.captureAckId && p.payload != [] && |s.captured| >= 254)
            && (ret == CommandPacket <==> isNew && p.payload != [] && p.ackId != s.captureAckId)
            && (ret == PacketRejected <==>
                  || (s.configured && !own)
                  || (isNew && next && p.seqNo != |s.captured| + 1)
                  || (isNew && !s.capture && p.ackId == s.captureAckId && p.payload != []))
  {
  }

  /** A packet to another address or from another sender is refused and changes nothing at all. */
  lemma ForeignPacketsAreRefused(s: State, p: Packet)
    requires s.configured && (p.dest != s.host || p.src != s.remote)
    ensures Step(s, p) == Outcome(s, PacketRejected, [])
  {
  }

  lemma StepKeepsWellFormed(s: State, p: Packet)
    requires WellFormed(s)
    ensures WellFormed(Step(s, p).next)
  {
    assert KeyOf(p).ackId == p.ackId;
  }

  /** What a failed reception is parsed to neither changes the handler nor makes it call anything. */
  lemma GarbageIsInert(s: State)
    requires s.host != s.remote
    ensures Step(s, ZERO_PACKET) == Outcome(s, if s.configured then PacketRejected else NotConfigured, [])
  {
  }

  /** A whole trace: final state, return codes in order, callbacks in order. */
  datatype Result = Result(next: State, rets: seq<Return>, calls: seq<Callback>)

  function Run(s: State, t: seq<Packet>): (r: Result)
    ensures |r.rets| == |t|
  {
    if t == [] then Result(s, [], [])
    else
      var r := Run(s, t[..|t| - 1]);
      var o := Step(r.next, t[|t| - 1]);
      Result(o.next, r.rets + [o.ret], r.calls + o.calls)
  }

  /** The run on `t + [p]`, one step after the run on `t`. */
  lemma RunSnoc(s: State, t: seq<Packet>, p: Packet)
    ensures var r := Run(s, t);
            var o := Step(r.next, p);
            Run(s, t + [p]) == Result(o.next, r.rets + [o.ret], r.calls + o.calls)
  {
    assert (t + [p])[..|t|] == t;
  }

  lemma RunOne(s: State, p: Packet)
    ensures var o := Step(s, p);
            Run(s, [p]) == Result(o.next, [o.ret], o.calls)
  {
    hide Step;
    RunSnoc(s, [], p);
    assert [] + [p] == [p];
    assert [] + Step(s, p).calls == Step(s, p).calls;
  }

  lemma {:induction false} RunAppend(s: State, t: seq<Packet>, u: seq<Packet>)
    ensures var r := Run(s, t);
            var q := Run(r.next, u);
            Run(s, t + u) == Result(q.next, r.rets + q.rets, r.calls + q.calls)
    decreases |u|
  {
    hide Step;
    if u == [] {
      assert t + u == t;
    } else {
      var v := u[..|u| - 1];
      var p := u[|u| - 1];
      RunAppend(s, t, v);
      RunSnoc(s, t + v, p);
      assert t + v + [p] == t + u;
      var r := Run(s, t);
      var q := Run(r.next, v);
      var o := Step(q.next, p);
      Associative(r.rets, q.rets, [o.ret]);
      Associative(r.calls, q.calls, o.calls);
    }
  }

  /** The packets of `t` on the link from `remote` to `host`. */
  function LinkTraffic(host: word, remote: word, t: seq<Packet>): seq<Packet> {
    if t == [] then []
    else
      var p := t[|t| - 1];
      LinkTraffic(host, remote, t[..|t| - 1]) + (if p.dest == host && p.src == remote then [p] else [])
  }

  lemma {:induction false} ConfigurationIsKept(s: State, t: seq<Packet>)
    ensures var n := Run(s, t).next; n.configured == s.configured && n.host == s.host && n.remote == s.remote
    decreases |t|
  {
    if t != [] {
      ConfigurationIsKept(s, t[..|t| - 1]);
    }
  }

  /** Two traces to the same state with the same callbacks. */
  predicate SameEffect(s: State, t: seq<Packet>, u: seq<Packet>) {
    Run(s, t).next == Run(s, u).next && Run(s, t).calls == Run(s, u).calls
  }

  lemma SameEffectSnoc(s: State, t: seq<Packet>, u: seq<Packet>, p: Packet)
    requires SameEffect(s, t, u)
    ensures SameEffect(s, t + [p], u + [p])
    ensures Step(Run(s, t).next, p) == Outcome(Run(s, t).next, PacketRejected, []) ==> SameEffect(s, t + [p], u)
  {
    hide Run, Step;
    RunSnoc(s, t, p);
    RunSnoc(s, u, p);
    assert Run(s, t).calls + [] == Run(s, t).calls;
  }

  /** Traffic of other nodes is invisible: without it the trace leads to the same state and the same callbacks. */
  lemma {:induction false} ForeignTrafficIsInvisible(s: State, t: seq<Packet>)
    requires s.configured
    ensures SameEffect(s, t, LinkTraffic(s.host, s.remote, t))
    decreases |t|
  {
    hide Run, Step;
    if t != [] {
      var before := t[..|t| - 1];
      var p := t[|t| - 1];
      var link := LinkTraffic(s.host, s.remote, before);
      ForeignTrafficIsInvisible(s, before);
      ConfigurationIsKept(s, before);
      SameEffectSnoc(s, before, link, p);
      assert before + [p] == t;
      if p.dest != s.host || p.src != s.remote {
        ForeignPacketsAreRefused(Run(s, before).next, p);
        assert link + [] == link;
      }
    }
  }

  lemma {:induction false} RunKeepsWellFormed(s: State, t: seq<Packet>)
    requires WellFormed(s)
    ensures WellFormed(Run(s, t).next)
    ensures Run(s, t).next.configured == s.configured
    ensures Run(s, t).next.host == s.host && Run(s, t).next.remote == s.remote
    decreases |t|
  {
    if t != [] {
      RunKeepsWellFormed(s, t[..|t| - 1]);
      StepKeepsWellFormed(Run(s, t[..|t| - 1]).next, t[|t| - 1]);
    }
  }
}
