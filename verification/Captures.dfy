/** What a capture contains, for every trace: reordering up to END, commands in between, and where a
    delivered capture comes from. */
module Captures {
  import opened Packets
  import opened Handler

  /** `idx` picks `a` out of `t`, in order. */
  ghost predicate EmbedsAt(a: seq<Packet>, t: seq<Packet>, idx: seq<nat>) {
    && |idx| == |a|
    && (forall i | 0 <= i < |a| :: idx[i] < |t| && t[idx[i]] == a[i])
    && (forall i, j | 0 <= i < j < |a| :: idx[i] < idx[j])
  }

  /** The packets of `a` occur in `t` in this order. */
  ghost predicate Occurs(a: seq<Packet>, t: seq<Packet>) {
    exists idx: seq<nat> :: EmbedsAt(a, t, idx)
  }

  lemma OccursInLonger(a: seq<Packet>, t: seq<Packet>, p: Packet)
    requires Occurs(a, t)
    ensures Occurs(a, t + [p])
    ensures Occurs(a + [p], t + [p])
  {
    var idx: seq<nat> :| EmbedsAt(a, t, idx);
    assert EmbedsAt(a, t + [p], idx);
    assert EmbedsAt(a + [p], t + [p], idx + [|t|]);
  }

  /** An occurrence in `t + [p]` either does not use `p`, or uses it as its last packet. */
  lemma OccursSplit(a: seq<Packet>, t: seq<Packet>, p: Packet)
    requires a != [] && Occurs(a, t + [p])
    ensures Occurs(a[..|a| - 1], t)
    ensures Occurs(a, t) || a[|a| - 1] == p
  {
    var idx: seq<nat> :| EmbedsAt(a, t + [p], idx);
    var m := |a| - 1;
    assert forall i | 0 <= i < m :: idx[i] < idx[m] && (t + [p])[idx[i]] == a[i];
    assert EmbedsAt(a[..m], t, idx[..m]);
    if idx[m] < |t| {
      assert EmbedsAt(a, t, idx);
    }
  }

  // ---- Reordering until END ----

  /** The data frames of one burst. */
  predicate BurstData(s: State, ackId: byte, ds: seq<Packet>) {
    && |ds| <= CAPTURE_MAX
    && forall k | 0 <= k < |ds| ::
         Passes(s, ds[k]) && ds[k].ackId == ackId && ds[k].seqNo == k + 1 && ds[k].payload != []
  }

  /** Packets that are no part of the burst's data: other addresses, other ack ids (commands, further
      BEGINs, empty frames) short of an END, and the burst's own BEGIN. */
  predicate Noise(s: State, ackId: byte, p: Packet) {
    || !Passes(s, p)
    || (p.ackId != ackId && TypeOf(p) != EndType)
    || (p.ackId == ackId && TypeOf(p) == BeginType)
  }

  /** A capture of ack id `ackId` is open and the duplicate check does not stand in the way of the next
      packet it needs. */
  predicate Capturing(s: State, ackId: byte) {
    && s.configured && s.capture && s.captureAckId == ackId && |s.captured| <= CAPTURE_MAX
    && s.last != Key(ackId, |s.captured| + 1)
  }

  /** `k` is the largest number such that the first `k` packets of `ds` occur in order in `t`. */
  ghost predicate LongestPrefix(ds: seq<Packet>, t: seq<Packet>, k: nat) {
    && k <= |ds|
    && Occurs(ds[..k], t)
    && forall j | k < j <= |ds| :: !Occurs(ds[..j], t)
  }

  /** One more packet moves the longest prefix on exactly when it is the next one. */
  lemma LongestPrefixStep(ds: seq<Packet>, t: seq<Packet>, k: nat, p: Packet)
    requires LongestPrefix(ds, t, k)
    ensures LongestPrefix(ds, t + [p], if k < |ds| && p == ds[k] then k + 1 else k)
  {
    var k' := if k < |ds| && p == ds[k] then k + 1 else k;
    OccursInLonger(ds[..k], t, p);
    if k' == k + 1 {
      assert ds[..k] + [p] == ds[..k + 1];
    }
    forall j | k' < j <= |ds|
      ensures !Occurs(ds[..j], t + [p])
    {
      assert ds[..j][..j - 1] == ds[..j - 1];
      if Occurs(ds[..j], t + [p]) {
        OccursSplit(ds[..j], t, p);
        assert false;
      }
    }
  }

  /** One packet: the next one needed is captured, any other leaves the capture as it is. */
  lemma CaptureStep(s: State, ackId: byte, ds: seq<Packet>, k: nat, p: Packet)
    requires Capturing(s, ackId) && BurstData(s, ackId, ds)
    requires k <= |ds| && s.captured == ds[..k]
    requires p in ds || Noise(s, ackId, p)
    ensures var n := Step(s, p).next;
            && Capturing(n, ackId) && n.host == s.host && n.remote == s.remote
            && n.captured == ds[..if k < |ds| && p == ds[k] then k + 1 else k]
  {
    if p in ds {
      var i :| 0 <= i < |ds| && ds[i] == p;
      assert k < |ds| && i == k ==> ds[..k] + [p] == ds[..k + 1];
    }
  }

  /** For lost, repeated and reordered frames of one burst, mixed with noise: the capture holds exactly the
      longest prefix of the burst that arrived in order. Duplicate detection never drops a frame it needs. */
  lemma {:induction false} CaptureIsLongestPrefix(s: State, ackId: byte, ds: seq<Packet>, t: seq<Packet>)
    requires Capturing(s, ackId) && s.captured == []
    requires BurstData(s, ackId, ds)
    requires forall p | p in t :: p in ds || Noise(s, ackId, p)
    ensures var n := Run(s, t).next;
            && Capturing(n, ackId) && n.host == s.host && n.remote == s.remote
            && LongestPrefix(ds, t, |n.captured|)
            && n.captured == ds[..|n.captured|]
    decreases |t|
  {
    if t == [] {
      NothingOccursInNothing(ds);
    } else {
      var before := t[..|t| - 1];
      var p := t[|t| - 1];
      assert before + [p] == t;
      CaptureIsLongestPrefix(s, ackId, ds, before);
      var n := Run(s, before).next;
      assert p in t && forall q | q in before :: q in t;
      CaptureStep(n, ackId, ds, |n.captured|, p);
      LongestPrefixStep(ds, before, |n.captured|, p);
    }
  }

  /** The capture needs the next packet of the burst, and takes it unless its key was the last one seen;
      so an empty frame carrying that key shadows it. */
  lemma NextFrameIsTakenIffNotShadowed(s: State, p: Packet)
    requires WellFormed(s) && s.configured && s.capture && Passes(s, p) && |s.captured| < CAPTURE_MAX
    requires TypeOf(p) == DataType && p.ackId == s.captureAckId && p.seqNo == |s.captured| + 1
    ensures Step(s, p).next.captured == s.captured + [p] <==> s.last != KeyOf(p)
    ensures s.last == KeyOf(p) ==> Step(s, p) == Outcome(s, PacketRedundant, [])
  {
    assert |s.captured + [p]| != |s.captured|;
  }

  /** The shadow is real: an acknowledgement-shaped frame in front of the first data frame loses it. */
  lemma AShadowedFrameIsLost(host: word, remote: word, ackId: byte, payload: Payload)
    requires ackId != 0 && payload != []
    ensures var first := Packet(host, remote, ackId, 1, payload);
            var begin := AckPacket(host, remote, ackId, 0);
            var r := Run(Initial(host, remote), [begin, AckPacket(host, remote, ackId, 1), first]);
            r.next.captured == [] && r.rets == [CaptureBegin, UnknownPacket, PacketRedundant]
  {
    var h := Initial(host, remote);
    var begin := AckPacket(host, remote, ackId, 0);
    var shadow := AckPacket(host, remote, ackId, 1);
    var first := Packet(host, remote, ackId, 1, payload);
    hide Run;
    RunOne(h, begin);
    RunSnoc(h, [begin], shadow);
    RunSnoc(h, [begin, shadow], first);
    assert [begin] + [shadow] == [begin, shadow];
    assert [begin, shadow] + [first] == [begin, shadow, first];
  }

  /** An empty packet of the capture's own ack id that is neither a BEGIN nor an END. */
  predicate IsEmptyFrame(s: State, ackId: byte, p: Packet) {
    Passes(s, p) && p.ackId == ackId && TypeOf(p) == AckType
  }

  /** The key of the last packet of `t` past the address filter, or of the last one before `t`. */
  function LastPassing(s: State, t: seq<Packet>): Key {
    if t == [] then s.last
    else if Passes(s, t[|t| - 1]) then KeyOf(t[|t| - 1])
    else LastPassing(s, t[..|t| - 1])
  }

  /** `t` without the packets that have the key of the packet before them, those the address filter stops not
      counted. */
  function Unshadowed(s: State, t: seq<Packet>): seq<Packet> {
    if t == [] then []
    else
      var before := t[..|t| - 1];
      var p := t[|t| - 1];
      Unshadowed(s, before) + (if Passes(s, p) && KeyOf(p) == LastPassing(s, before) then [] else [p])
  }

  /** One packet that is not shadowed: the next one needed is captured, any other leaves the capture as it is. */
  lemma UnshadowedStep(n: State, ackId: byte, ds: seq<Packet>, k: nat, p: Packet)
    requires n.configured && n.capture && n.captureAckId == ackId && BurstData(n, ackId, ds)
    requires k <= |ds| && n.captured == ds[..k]
    requires p in ds || Noise(n, ackId, p) || IsEmptyFrame(n, ackId, p)
    requires Passes(n, p) ==> KeyOf(p) != n.last
    ensures Step(n, p).next == n.(last := if Passes(n, p) then KeyOf(p) else n.last,
                                  captured := ds[..if k < |ds| && p == ds[k] then k + 1 else k])
  {
    if p in ds {
      var i :| 0 <= i < |ds| && ds[i] == p;
      assert k < |ds| && i == k ==> ds[..k] + [p] == ds[..k + 1];
    }
  }

  /** The shadow over traces: whatever was seen last, with frames of one burst lost, repeated and reordered, and
      mixed with noise and with empty frames of the burst's own ack id, the capture holds the longest prefix of the
      burst that arrived in order and not shadowed. */
  lemma {:induction false} CaptureIsLongestUnshadowedPrefix(s: State, ackId: byte, ds: seq<Packet>, t: seq<Packet>)
    requires s.configured && s.capture && s.captureAckId == ackId && s.captured == [] && BurstData(s, ackId, ds)
    requires forall p | p in t :: p in ds || Noise(s, ackId, p) || IsEmptyFrame(s, ackId, p)
    ensures var n := Run(s, t).next;
            && n == s.(last := LastPassing(s, t), captured := n.captured)
            && LongestPrefix(ds, Unshadowed(s, t), |n.captured|)
            && n.captured == ds[..|n.captured|]
    decreases |t|
  {
    if t == [] {
      NothingOccursInNothing(ds);
    } else {
      var before := t[..|t| - 1];
      var p := t[|t| - 1];
      assert p in t && forall q | q in before :: q in t;
      CaptureIsLongestUnshadowedPrefix(s, ackId, ds, before);
      var n := Run(s, before).next;
      if !(Passes(s, p) && KeyOf(p) == LastPassing(s, before)) {
        UnshadowedStep(n, ackId, ds, |n.captured|, p);
        LongestPrefixStep(ds, Unshadowed(s, before), |n.captured|, p);
      } else {
        assert Unshadowed(s, t) == Unshadowed(s, before);
      }
    }
  }

  lemma NothingOccursInNothing(ds: seq<Packet>)
    ensures LongestPrefix(ds, [], 0)
  {
    assert EmbedsAt(ds[..0], [], []);
    forall j | 0 < j <= |ds|
      ensures !Occurs(ds[..j], [])
    {
      assert |ds[..j]| == j;
      assert forall idx: seq<nat> :: EmbedsAt(ds[..j], [], idx) ==> idx[0] < 0;
    }
  }

  // ---- Commands during a capture ----

  predicate IsCommand(s: State, p: Packet) {
    Passes(s, p) && TypeOf(p) == DataType && p.ackId != s.captureAckId
  }

  /** The sender's frames between BEGIN and END; nothing is said of their order, number or contents. */
  predicate IsBurstFrame(s: State, p: Packet) {
    && Passes(s, p) && p.ackId == s.captureAckId
    && (TypeOf(p) == BeginType || (TypeOf(p) == DataType && p.seqNo <= CAPTURE_MAX))
  }

  function WithoutCommands(s: State, t: seq<Packet>): seq<Packet> {
    if t == [] then []
    else
      var p := t[|t| - 1];
      WithoutCommands(s, t[..|t| - 1]) + (if IsCommand(s, p) then [] else [p])
  }

  function LastKey(last: Key, t: seq<Packet>): Key {
    if t == [] then last else KeyOf(t[|t| - 1])
  }

  /** The commands of `t`, each run of equal-keyed neighbours collapsed to its first. */
  function CommandsOf(s: State, t: seq<Packet>): seq<Packet> {
    if t == [] then []
    else
      var before := t[..|t| - 1];
      var p := t[|t| - 1];
      CommandsOf(s, before) + (if IsCommand(s, p) && KeyOf(p) != LastKey(s.last, before) then [p] else [])
  }

  /** What relates the handler that saw commands (`n`) to the one that did not (`q`). */
  predicate SameCapture(s: State, n: State, q: State) {
    && Capturing(n, s.captureAckId) && Capturing(q, s.captureAckId)
    && n.host == q.host == s.host && n.remote == q.remote == s.remote
    && n.captured == q.captured
    && n.last != Key(s.captureAckId, SEQ_END) && q.last != Key(s.captureAckId, SEQ_END)
  }

  lemma SameCaptureStep(s: State, n: State, q: State, p: Packet)
    requires SameCapture(s, n, q)
    requires IsCommand(s, p) || IsBurstFrame(s, p)
    ensures Step(n, p).next.last == KeyOf(p)
    ensures Step(n, p).calls == if IsCommand(s, p) && KeyOf(p) != n.last then [Command(p)] else []
    ensures SameCapture(s, Step(n, p).next, if IsCommand(s, p) then q else Step(q, p).next)
    ensures !IsCommand(s, p) ==> Step(q, p).calls == []
  {
    assert KeyOf(p).seqNo == p.seqNo && KeyOf(p).ackId == p.ackId;
  }

  /** After `t` the capture is the same as without the commands of `t`, and these are all that was called. */
  predicate LeavesTheCapture(s: State, t: seq<Packet>) {
    && SameCapture(s, Run(s, t).next, Run(s, WithoutCommands(s, t)).next)
    && Run(s, t).next.last == LastKey(s.last, t)
    && Run(s, t).calls == Commands(CommandsOf(s, t))
    && Run(s, WithoutCommands(s, t)).calls == []
  }

  lemma {:induction false} CommandsLeaveTheCapture(s: State, t: seq<Packet>)
    requires SameCapture(s, s, s)
    requires forall p | p in t :: IsCommand(s, p) || IsBurstFrame(s, p)
    ensures LeavesTheCapture(s, t)
    decreases |t|
  {
    if t != [] {
      var before := t[..|t| - 1];
      var p := t[|t| - 1];
      assert p in t && forall q | q in before :: q in t;
      CommandsLeaveTheCapture(s, before);
      OneMoreLeavesTheCapture(s, before, p);
      assert before + [p] == t;
    }
  }

  lemma OneMoreLeavesTheCapture(s: State, t: seq<Packet>, p: Packet)
    requires LeavesTheCapture(s, t) && (IsCommand(s, p) || IsBurstFrame(s, p))
    ensures LeavesTheCapture(s, t + [p])
  {
    hide Commands, IsBurstFrame, Run, SameCapture, Step;
    var w := WithoutCommands(s, t);
    SameCaptureStep(s, Run(s, t).next, Run(s, w).next, p);
    RunSnoc(s, t, p);
    CommandsSnoc(CommandsOf(s, t), p);
    assert (t + [p])[..|t|] == t;
    assert CommandsOf(s, t) + [] == CommandsOf(s, t) && Run(s, t).calls + [] == Run(s, t).calls;
    if IsCommand(s, p) {
      assert WithoutCommands(s, t + [p]) == w + [] == w;
    } else {
      RunSnoc(s, w, p);
    }
  }

  /** From BEGIN to END: with any commands mixed in anywhere, the delivered capture is the one delivered
      without them, and the command callback gets the commands in order, equal-keyed neighbours once. */
  lemma CommandsDoNotDisturb(s: State, t: seq<Packet>, end: Packet)
    requires Capturing(s, s.captureAckId) && s.last != Key(s.captureAckId, SEQ_END)
    requires forall p | p in t :: IsCommand(s, p) || IsBurstFrame(s, p)
    requires Passes(s, end) && end.ackId == s.captureAckId && TypeOf(end) == EndType
    ensures var quiet := Run(s, WithoutCommands(s, t) + [end]);
            && quiet.calls == [Delivered(Run(s, WithoutCommands(s, t)).next.captured)]
            && Run(s, t + [end]).calls == Commands(CommandsOf(s, t)) + quiet.calls
  {
    CommandsLeaveTheCapture(s, t);
    RunSnoc(s, t, end);
    RunSnoc(s, WithoutCommands(s, t), end);
  }

  // ---- Where a delivered capture comes from ----

  /** `t[b]` opened the capture that is still open after `t`. */
  ghost predicate OpenedAt(s: State, t: seq<Packet>, b: nat) {
    var r := Run(s, t);
    && b < |t| && r.rets[b] == CaptureBegin && TypeOf(t[b]) == BeginType && t[b].ackId == r.next.captureAckId
    && (forall j | b < j < |t| :: r.rets[j] != CaptureBegin && r.rets[j] != CaptureEnd)
    && Occurs(r.next.captured, t[b + 1..])
  }

  /** A step that leaves a capture open either opened it, empty, or added at most the packet to it. */
  lemma CaptureStepHistory(n: State, p: Packet)
    requires Step(n, p).next.capture
    ensures var o := Step(n, p);
            if n.capture then
              && o.ret != CaptureBegin && o.ret != CaptureEnd && o.next.captureAckId == n.captureAckId
              && (o.next.captured == n.captured || o.next.captured == n.captured + [p])
            else
              o.ret == CaptureBegin && TypeOf(p) == BeginType && o.next.captureAckId == p.ackId && o.next.captured == []
  {
  }

  /** An open capture holds packets that arrived, in order, since the BEGIN that opened it. */
  lemma {:induction false} CaptureHistory(s: State, t: seq<Packet>)
    requires WellFormed(s) && Idle(s)
    ensures Run(s, t).next.capture ==> exists b: nat :: OpenedAt(s, t, b)
    decreases |t|
  {
    if t != [] {
      var before := t[..|t| - 1];
      var p := t[|t| - 1];
      CaptureHistory(s, before);
      var n := Run(s, before).next;
      var o := Step(n, p);
      assert before + [p] == t;
      if o.next.capture {
        if n.capture {
          var b: nat :| OpenedAt(s, before, b);
          StillOpen(s, before, b, p);
        } else {
          OpenedNow(s, before, p);
        }
      }
    }
  }

  lemma StillOpen(s: State, t: seq<Packet>, b: nat, p: Packet)
    requires OpenedAt(s, t, b) && Run(s, t).next.capture && Step(Run(s, t).next, p).next.capture
    ensures OpenedAt(s, t + [p], b)
  {
    hide Occurs, Run, Step;
    var n := Run(s, t).next;
    RunSnoc(s, t, p);
    CaptureStepHistory(n, p);
    assert (t + [p])[b + 1..] == t[b + 1..] + [p];
    OccursInLonger(n.captured, t[b + 1..], p);
  }

  lemma OpenedNow(s: State, t: seq<Packet>, p: Packet)
    requires !Run(s, t).next.capture && Step(Run(s, t).next, p).next.capture
    ensures OpenedAt(s, t + [p], |t|)
  {
    hide Run, Step;
    RunSnoc(s, t, p);
    CaptureStepHistory(Run(s, t).next, p);
    assert EmbedsAt([], (t + [p])[|t| + 1..], []);
  }

  /** Whenever, on any trace from an idle handler, packet `p` makes the handler deliver `ps`: `p` is an END,
      and `ps` is a subsequence of what arrived since the BEGIN that opened the capture, carries that BEGIN's
      ack id and sequence numbers 1..n, has no empty payload, and n is at most 254. */
  lemma DeliveredCapturesAreWellFormed(s: State, t: seq<Packet>, p: Packet, ps: seq<Packet>)
    requires WellFormed(s) && Idle(s)
    requires Delivered(ps) in Step(Run(s, t).next, p).calls
    ensures TypeOf(p) == EndType && |ps| <= 254
    ensures exists b: nat ::
              && OpenedAt(s, t, b)
              && Occurs(ps, t[b + 1..])
              && forall k | 0 <= k < |ps| ::
                   ps[k].ackId == t[b].ackId && ps[k].seqNo == k + 1 && ps[k].payload != []
  {
    hide Step, Run, Occurs;
    RunKeepsWellFormed(s, t);
    CaptureHistory(s, t);
    DeliveredIsTheCapture(Run(s, t).next, p, ps);
    var b: nat :| OpenedAt(s, t, b);
  }

  lemma DeliveredIsTheCapture(n: State, p: Packet, ps: seq<Packet>)
    requires WellFormed(n) && Delivered(ps) in Step(n, p).calls
    ensures TypeOf(p) == EndType && n.capture && ps == n.captured && |ps| <= CAPTURE_MAX
  {
  }
}
