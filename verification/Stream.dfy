/** Several framed blobs sent one after the other: the stream of their frames, and what the handler makes of
    any part of it. */
module Stream {
  import opened Packets
  import opened Codec
  import opened Captures
  import opened Fragments
  import opened Protocol
  import opened Resumption
  import H = Handler

  datatype Blob = Blob(ackId: byte, data: seq<byte>)

  /** One sender, one receiver, and the blobs to send. `start` is the receiver's handler before the first frame. */
  datatype Setup = Setup(dest: word, src: word, blobs: seq<Blob>, start: H.State) {
    function RouteOf(b: Blob): Route {
      Route(dest, src, b.ackId)
    }

    function FramesOf(b: Blob): seq<Packet> {
      Framed(RouteOf(b), b.data)
    }

    /** Distinct addresses, blobs that fit a burst, a handler for this link. What the handler is busy with when the
        first frame comes in is arbitrary, and so are the ack ids. */
    predicate Valid() {
      && dest != src && blobs != [] && (forall b | b in blobs :: Fits(b.data))
      && start.configured && H.WellFormed(start) && start.host == dest && start.remote == src
    }

    /** The handler is in a state from which the first blob is delivered. */
    predicate Ready()
      requires blobs != []
    {
      Deliverable(start, RouteOf(blobs[0]), blobs[0].data)
    }

    /** The frames of the first `k` blobs. */
    function Frames(k: nat): seq<Packet>
      requires k <= |blobs|
    {
      if k == 0 then [] else Frames(k - 1) + FramesOf(blobs[k - 1])
    }

    function All(): seq<Packet> {
      Frames(|blobs|)
    }

    /** What is to be delivered for the first `k` blobs. */
    function Deliveries(k: nat): (calls: seq<H.Callback>)
      requires k <= |blobs|
      ensures |calls| == k
    {
      seq(k, i requires 0 <= i < k => H.Delivered(DataPackets(RouteOf(blobs[i]), blobs[i].data, 1)))
    }
  }

  lemma {:induction false} FramesGrow(c: Setup, j: nat, k: nat)
    requires j <= k <= |c.blobs|
    ensures c.Frames(j) <= c.Frames(k)
    decreases k
  {
    if j < k {
      FramesGrow(c, j, k - 1);
    }
  }

  lemma BlobInStream(c: Setup, k: nat)
    requires k < |c.blobs|
    ensures c.Frames(k) + c.FramesOf(c.blobs[k]) <= c.All()
  {
    hide Setup.FramesOf;
    FramesGrow(c, k + 1, |c.blobs|);
  }

  /** Where the `i`-th frame of the `k`-th blob stands in the whole stream. */
  lemma FrameAt(c: Setup, k: nat, i: nat)
    requires k < |c.blobs| && i < |c.FramesOf(c.blobs[k])|
    ensures |c.Frames(k)| + i < |c.All()| && c.All()[|c.Frames(k)| + i] == c.FramesOf(c.blobs[k])[i]
  {
    hide Setup.All, Setup.Frames, Setup.FramesOf;
    BlobInStream(c, k);
    var before, frames := c.Frames(k), c.FramesOf(c.blobs[k]);
    assert (before + frames)[|before| + i] == frames[i];
  }

  /** The first `k` blobs and `i` frames of the next, as the beginning of the stream. */
  lemma StreamUpTo(c: Setup, k: nat, i: nat)
    requires k < |c.blobs| && i <= |c.FramesOf(c.blobs[k])|
    ensures var n := |c.Frames(k)| + i;
            n <= |c.All()| && c.All()[..n] == c.Frames(k) + c.FramesOf(c.blobs[k])[..i]
  {
    hide Setup.All, Setup.Frames, Setup.FramesOf;
    BlobInStream(c, k);
    var before, frames := c.Frames(k), c.FramesOf(c.blobs[k]);
    assert (before + frames)[..|before| + i] == before + frames[..i];
  }

  /** Every frame is addressed to the receiver and short enough for the buffers; neighbours have different keys. */
  predicate OnLink(c: Setup, f: seq<Packet>) {
    && (forall i | 0 <= i < |f| :: f[i].dest == c.dest && f[i].src == c.src && |f[i].payload| <= PAYLOAD_MAX)
    && (forall i | 0 < i < |f| :: KeyOf(f[i - 1]) != KeyOf(f[i]))
  }

  lemma OnLinkJoined(c: Setup, f: seq<Packet>, g: seq<Packet>)
    requires OnLink(c, f) && OnLink(c, g)
    requires f != [] && g != [] ==> KeyOf(f[|f| - 1]) != KeyOf(g[0])
    ensures OnLink(c, f + g)
  {
    var all := f + g;
    forall i | 0 < i < |all|
      ensures KeyOf(all[i - 1]) != KeyOf(all[i])
    {
      assert all[i] == if i < |f| then f[i] else g[i - |f|];
      assert all[i - 1] == if i - 1 < |f| then f[i - 1] else g[i - 1 - |f|];
    }
  }

  /** This holds of the frames of any number of blobs, across the boundary between two blobs as well. */
  lemma {:induction false} Neighbours(c: Setup, k: nat)
    requires c.Valid() && k <= |c.blobs|
    ensures OnLink(c, c.Frames(k))
    ensures k > 0 ==> c.Frames(k) != [] && c.Frames(k)[|c.Frames(k)| - 1].seqNo == SEQ_END
  {
    if k > 0 {
      Neighbours(c, k - 1);
      var b := c.blobs[k - 1];
      assert b in c.blobs;
      OneBlobNeighbours(c, b);
      OnLinkJoined(c, c.Frames(k - 1), c.FramesOf(b));
    }
  }

  lemma OneBlobNeighbours(c: Setup, b: Blob)
    requires Fits(b.data)
    ensures var f := c.FramesOf(b);
            |f| >= 2 && f[0].seqNo == SEQ_BEGIN && f[|f| - 1].seqNo == SEQ_END && OnLink(c, f)
  {
    SequenceNumbers(c.RouteOf(b), b.data);
    KeysAreDistinctIff(c.RouteOf(b), b.data);
  }

  /** The handler after the first `k` blobs. */
  function StateAfter(c: Setup, k: nat): H.State
    requires k <= |c.blobs|
  {
    if k == 0 then c.start else H.Cleared(c.start).(last := Key(c.blobs[k - 1].ackId, SEQ_END))
  }

  /** The callbacks for the first `k` blobs: whatever the first one gives, and each later one delivered. */
  function CallsFor(c: Setup, k: nat): seq<H.Callback>
    requires c.blobs != [] && k <= |c.blobs|
  {
    if k == 0 then [] else H.Run(c.start, c.FramesOf(c.blobs[0])).calls + c.Deliveries(k)[1..]
  }

  /** Every blob but the first meets an idle handler that has just seen an END. */
  lemma LaterBlobsAreDeliverable(c: Setup, k: nat)
    requires c.Valid() && k < |c.blobs| && (k > 0 || c.Ready())
    ensures var s, r := StateAfter(c, k), c.RouteOf(c.blobs[k]);
            H.WellFormed(s) && Addressed(s, r) && Fits(c.blobs[k].data) && Deliverable(s, r, c.blobs[k].data)
  {
    assert c.blobs[k] in c.blobs;
  }

  lemma DeliveriesGrow(c: Setup, k: nat)
    requires 0 < k <= |c.blobs|
    ensures var b := c.blobs[k - 1];
            c.Deliveries(k) == c.Deliveries(k - 1) + [H.Delivered(DataPackets(c.RouteOf(b), b.data, 1))]
  {
  }

  /** The frames of the first `k` blobs, each once and in order: whatever the handler was busy with, every blob but
      the first is delivered. */
  lemma {:induction false} WholeBlobs(c: Setup, k: nat)
    requires c.Valid() && k <= |c.blobs|
    ensures H.Run(c.start, c.Frames(k)).next == StateAfter(c, k)
    ensures H.Run(c.start, c.Frames(k)).calls == CallsFor(c, k)
  {
    if k == 1 {
      FirstBlob(c);
    } else if k > 1 {
      WholeBlobs(c, k - 1);
      OneMoreBlob(c, k - 1, H.Run(c.start, c.Frames(k - 1)));
      CallsForOneMore(c, k);
    }
  }

  lemma FirstBlob(c: Setup)
    requires c.Valid()
    ensures H.Run(c.start, c.Frames(1)).next == StateAfter(c, 1)
    ensures H.Run(c.start, c.Frames(1)).calls == CallsFor(c, 1)
  {
    var b := c.blobs[0];
    assert b in c.blobs;
    IdleAfterAnyBurst(c.start, c.RouteOf(b), b.data);
    assert c.Frames(1) == c.Frames(0) + c.FramesOf(b) == c.FramesOf(b);
    assert c.Deliveries(1)[1..] == [];
    assert CallsFor(c, 1) == H.Run(c.start, c.FramesOf(b)).calls;
  }

  /** One more blob, to the handler `q` as the blobs before leave it. */
  lemma OneMoreBlob(c: Setup, k: nat, q: H.Result)
    requires c.Valid() && 0 < k < |c.blobs|
    requires H.Run(c.start, c.Frames(k)) == q && q.next == StateAfter(c, k)
    ensures var b := c.blobs[k];
            && H.Run(c.start, c.Frames(k + 1)).next == StateAfter(c, k + 1)
            && H.Run(c.start, c.Frames(k + 1)).calls == q.calls + [H.Delivered(DataPackets(c.RouteOf(b), b.data, 1))]
  {
    var b := c.blobs[k];
    LaterBlobsAreDeliverable(c, k);
    DeliverableBurst(q.next, c.RouteOf(b), b.data);
    IdleAfterAnyBurst(q.next, c.RouteOf(b), b.data);
    H.RunAppend(c.start, c.Frames(k), c.FramesOf(b));
  }

  lemma CallsForOneMore(c: Setup, k: nat)
    requires c.blobs != [] && 1 < k <= |c.blobs|
    ensures var b := c.blobs[k - 1];
            CallsFor(c, k) == CallsFor(c, k - 1) + [H.Delivered(DataPackets(c.RouteOf(b), b.data, 1))]
  {
    var b := c.blobs[k - 1];
    var one := [H.Delivered(DataPackets(c.RouteOf(b), b.data, 1))];
    DeliveriesGrow(c, k);
    assert c.Deliveries(k)[1..] == c.Deliveries(k - 1)[1..] + one;
    Associative(H.Run(c.start, c.FramesOf(c.blobs[0])).calls, c.Deliveries(k - 1)[1..], one);
  }

  /** All of the blobs, and nothing else, exactly when the handler was ready for the first. */
  lemma CallsAreDeliveriesIff(c: Setup, k: nat)
    requires c.Valid() && 0 < k <= |c.blobs|
    ensures CallsFor(c, k) == c.Deliveries(k) <==> c.Ready()
  {
    var r, data := c.RouteOf(c.blobs[0]), c.blobs[0].data;
    var first := H.Run(c.start, c.FramesOf(c.blobs[0])).calls;
    assert c.blobs[0] in c.blobs;
    AnyBurstIsDeliveredIff(c.start, r, data);
    assert c.Deliveries(k) == [H.Delivered(DataPackets(r, data, 1))] + c.Deliveries(k)[1..];
    if c.Ready() {
      DeliverableBurst(c.start, r, data);
    }
    if CallsFor(c, k) == c.Deliveries(k) {
      assert |first| == 1;
      assert CallsFor(c, k)[0] == first[0];
    }
  }

  /** All frames of `k` blobs and all but the END of the next: that one is captured, and not delivered. */
  lemma AllButEnd(c: Setup, k: nat)
    requires c.Valid() && c.Ready() && k < |c.blobs|
    ensures var f := c.FramesOf(c.blobs[k]);
            var q := H.Run(c.start, c.Frames(k) + f[..|f| - 1]);
            |f| >= 2 && q.next.capture && q.calls == c.Deliveries(k)
  {
    hide H.Run, H.Step, Setup.Frames;
    var b := c.blobs[k];
    var f := c.FramesOf(b);
    var open := [Begin(c.RouteOf(b))] + DataPackets(c.RouteOf(b), b.data, 1);
    assert f[..|f| - 1] == open;
    WholeBlobs(c, k);
    if k > 0 {
      CallsAreDeliveriesIff(c, k);
    }
    LaterBlobsAreDeliverable(c, k);
    DeliverableUpToEnd(StateAfter(c, k), c.RouteOf(b), b.data);
    H.RunAppend(c.start, c.Frames(k), open);
    assert c.Deliveries(k) + [] == c.Deliveries(k);
  }

  /** After any number of frames of the stream, the callbacks are a prefix of those for all blobs. */
  lemma DeliveredSoFar(c: Setup, n: nat)
    requires c.Valid() && n <= |c.All()|
    ensures H.Run(c.start, c.All()[..n]).calls <= CallsFor(c, |c.blobs|)
  {
    WholeBlobs(c, |c.blobs|);
    CallsGrow(c.start, c.All(), n);
  }

  lemma CallsGrow(s: H.State, t: seq<Packet>, n: nat)
    requires n <= |t|
    ensures H.Run(s, t[..n]).calls <= H.Run(s, t).calls
  {
    H.RunAppend(s, t[..n], t[n..]);
    assert t[..n] + t[n..] == t;
  }

  // ---- The acknowledgement schedule ----

  /** A framed blob's frames can all be acknowledged if and only if it has at most 254 fragments: frame 255 of a
      longer one asks for an empty packet with sequence number 255 that is not an END. */
  lemma ScheduleFitsIff(r: Route, data: seq<byte>)
    ensures (forall i | 0 <= i < |Framed(r, data)| :: Passable(Framed(r, data), i)) <==> Fits(data)
  {
    hide PacketArray, Passable;
    var f := Framed(r, data);
    SequenceNumbers(r, data);
    if !Fits(data) {
      PassableIff(f, 255);
      assert f[255].seqNo == 255;
    } else {
      forall i | 0 <= i < |f|
        ensures Passable(f, i)
      {
        PassableIff(f, i);
        assert f[i].seqNo == if i == |f| - 1 then 255 else i;
      }
    }
  }

  /** For a burst of at most 254 fragments the reply to frame `j` passes the check for frame `i` exactly when
      `i == j`, and no data packet ever passes. */
  lemma ScheduleIsExact(r: Route, data: seq<byte>, i: nat, j: nat)
    requires Fits(data) && i < |Framed(r, data)| && j < |Framed(r, data)|
    ensures var f := Framed(r, data);
            Accepts(f[i], Expected(i, |f|), ReplyTo(f[j])) <==> i == j
    ensures forall p | Accepts(Framed(r, data)[i], Expected(i, |Framed(r, data)|), p) :: TypeOf(p) != DataType
  {
    var f := Framed(r, data);
    ScheduleFitsIff(r, data);
    assert Passable(f, i);
    AcceptsOnlyItsReply(f[i], Expected(i, |f|), ReplyTo(f[j]));
    if i != j {
      KeysAreDistinctIff(r, data);
      assert KeyOf(f[if i < j then i else j]) != KeyOf(f[if i < j then j else i]);
    }
  }

  /** Whatever the radio does, `send_burst` on a framed blob of 255 fragments or more never reports success; up to
      254 it can. The limit is the size of the receiver's capture array. */
  lemma BurstCanSucceedIff(r: Route, data: seq<byte>)
    ensures (exists es :: SenderRun(Framed(r, data), es).Some?
                          && SenderRun(Framed(r, data), es).value.result == Some(Ok))
              <==> |data| <= 2032
  {
    CanSucceedIff(Framed(r, data));
    ScheduleFitsIff(r, data);
  }
}
