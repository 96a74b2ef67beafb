/** Fragmentation and reassembly (network_data_operations.c) on values, and what the handler makes of a
    fragmented blob. */
module Fragments {
  import opened Packets
  import opened Handler
  import opened Captures

  /** Where a blob goes and under which ack id. */
  datatype Route = Route(dest: word, src: word, ackId: byte)

  /** ceil(len / 8) */
  function FragmentCount(len: nat): nat {
    (len + PAYLOAD_MAX - 1) / PAYLOAD_MAX
  }

  function Min(a: nat, b: nat): nat {
    if a < b then a else b
  }

  /** The `i`-th slice of eight bytes, the last one possibly shorter. */
  function Chunk(data: seq<byte>, i: nat): (c: Payload)
    requires i < FragmentCount(|data|)
    ensures 1 <= |c| <= PAYLOAD_MAX
  {
    data[PAYLOAD_MAX * i..Min(PAYLOAD_MAX * (i + 1), |data|)]
  }

  /** `i`-th data packet; its sequence number is an 8-bit field. */
  function Fragment(r: Route, data: seq<byte>, offset: nat, i: nat): Packet
    requires i < FragmentCount(|data|)
  {
    Packet(r.dest, r.src, r.ackId, (offset + i) % 256, Chunk(data, i))
  }

  function DataPackets(r: Route, data: seq<byte>, offset: nat): (ps: seq<Packet>)
    ensures |ps| == FragmentCount(|data|)
  {
    seq(FragmentCount(|data|), i requires 0 <= i < FragmentCount(|data|) => Fragment(r, data, offset, i))
  }

  function Begin(r: Route): Packet {
    AckPacket(r.dest, r.src, r.ackId, SEQ_BEGIN)
  }

  function End(r: Route): Packet {
    AckPacket(r.dest, r.src, r.ackId, SEQ_END)
  }

  /** What `data_to_packet_array` stores. */
  function PacketArray(r: Route, data: seq<byte>, framed: bool): seq<Packet> {
    if framed then [Begin(r)] + DataPackets(r, data, 1) + [End(r)] else DataPackets(r, data, 0)
  }

  function Framed(r: Route, data: seq<byte>): seq<Packet> {
    PacketArray(r, data, true)
  }

  /** What `packet_array_to_data` stores. */
  function Reassemble(ps: seq<Packet>): seq<byte> {
    if ps == [] then [] else Reassemble(ps[..|ps| - 1]) + ps[|ps| - 1].payload
  }

  // ---- Round trip ----

  lemma {:induction false} PrefixReassembles(r: Route, data: seq<byte>, offset: nat, k: nat)
    requires k <= FragmentCount(|data|)
    ensures Reassemble(DataPackets(r, data, offset)[..k]) == data[..Min(PAYLOAD_MAX * k, |data|)]
    decreases k
  {
    hide Chunk;
    if k > 0 {
      var ps := DataPackets(r, data, offset);
      PrefixReassembles(r, data, offset, k - 1);
      assert ps[..k][..k - 1] == ps[..k - 1];
      NextChunk(data, k - 1);
    }
  }

  lemma NextChunk(data: seq<byte>, i: nat)
    requires i < FragmentCount(|data|)
    ensures PAYLOAD_MAX * i < |data|
    ensures data[..PAYLOAD_MAX * i] + Chunk(data, i) == data[..Min(PAYLOAD_MAX * (i + 1), |data|)]
  {
  }

  /** Reassembly is concatenation of the payloads, whatever packets there are. */
  lemma {:induction false} ReassembleConcatenates(ps: seq<Packet>, qs: seq<Packet>)
    ensures Reassemble(ps + qs) == Reassemble(ps) + Reassemble(qs)
    decreases |qs|
  {
    if qs == [] {
      assert ps + qs == ps;
    } else {
      var n := |qs| - 1;
      ReassembleConcatenates(ps, qs[..n]);
      assert (ps + qs)[..|ps + qs| - 1] == ps + qs[..n];
      Associative(Reassemble(ps), Reassemble(qs[..n]), qs[n].payload);
    }
  }

  lemma ReassembleOne(p: Packet)
    ensures Reassemble([]) == [] && Reassemble([p]) == p.payload
  {
    assert [p][..0] == [];
  }

  /** Reassembling the fragments of any blob gives the blob back. */
  lemma RoundTrip(r: Route, data: seq<byte>, offset: nat)
    ensures Reassemble(DataPackets(r, data, offset)) == data
  {
    var ps := DataPackets(r, data, offset);
    PrefixReassembles(r, data, offset, |ps|);
    assert ps[..|ps|] == ps && data[..|data|] == data;
  }

  /** All fragments but the last carry exactly eight bytes, the last one to eight, together all of them. */
  lemma FragmentSizes(r: Route, data: seq<byte>, offset: nat)
    ensures var ps := DataPackets(r, data, offset);
            && 8 * |ps| < |data| + 8 && |data| <= 8 * |ps|
            && (forall i | 0 <= i < |ps| - 1 :: |ps[i].payload| == 8)
            && (ps != [] ==> |ps[|ps| - 1].payload| == |data| - 8 * (|ps| - 1))
  {
  }

  /** Framed: BEGIN, 1, 2, ..., END. Unframed: consecutive numbers from 0. Both modulo 256. */
  lemma SequenceNumbers(r: Route, data: seq<byte>)
    ensures var n := FragmentCount(|data|);
            var f := PacketArray(r, data, true);
            var u := PacketArray(r, data, false);
            && |f| == n + 2 && |u| == n && f[0].seqNo == 0 && f[n + 1].seqNo == 255
            && TypeOf(f[0]) == BeginType && TypeOf(f[n + 1]) == EndType
            && (forall i | 1 <= i <= n :: TypeOf(f[i]) == DataType && f[i].seqNo == i % 256)
            && (forall i | 0 <= i < n :: TypeOf(u[i]) == DataType && u[i].seqNo == i % 256)
  {
  }

  /** All of them go where the route says, under its ack id. */
  lemma PacketsFollowTheRoute(r: Route, data: seq<byte>, framed: bool)
    ensures forall p | p in PacketArray(r, data, framed) :: p.dest == r.dest && p.src == r.src && p.ackId == r.ackId
  {
  }

  /** No two frames of a burst share a key exactly when it has at most 254 fragments. */
  lemma KeysAreDistinctIff(r: Route, data: seq<byte>)
    ensures FragmentCount(|data|) <= 254 <==>
            forall i, j | 0 <= i < j < |Framed(r, data)| :: KeyOf(Framed(r, data)[i]) != KeyOf(Framed(r, data)[j])
  {
    hide Chunk;
    var n := FragmentCount(|data|);
    var f := Framed(r, data);
    SequenceNumbers(r, data);
    if n > 254 {
      assert KeyOf(f[255]) == KeyOf(f[n + 1]);
    } else {
      forall i, j | 0 <= i < j < |f|
        ensures KeyOf(f[i]) != KeyOf(f[j])
      {
        assert f[i].seqNo != f[j].seqNo;
      }
    }
  }

  // ---- A burst through the handler ----

  /** The handler the route leads to. */
  predicate Addressed(s: State, r: Route) {
    s.configured && s.host == r.dest && s.remote == r.src
  }

  /** `data` fits one burst. */
  predicate Fits(data: seq<byte>) {
    FragmentCount(|data|) <= CAPTURE_MAX
  }

  lemma FragmentsAreBurstData(s: State, r: Route, data: seq<byte>)
    requires Addressed(s, r) && Fits(data)
    ensures BurstData(s, r.ackId, DataPackets(r, data, 1))
  {
  }

  lemma FragmentsAreDistinctNeighbours(s: State, r: Route, data: seq<byte>, offset: nat)
    requires Addressed(s, r)
    ensures CommandLike(s, r.ackId, DataPackets(r, data, offset))
  {
    var ps := DataPackets(r, data, offset);
    forall k | 0 < k < |ps|
      ensures ps[k].seqNo != ps[k - 1].seqNo
    {
      assert (offset + k) % 256 != (offset + k - 1) % 256;
    }
  }

  lemma NextIsCaptured(s: State, p: Packet)
    requires s.configured && s.capture && |s.captured| < CAPTURE_MAX && s.last == Key(s.captureAckId, |s.captured|)
    requires Passes(s, p) && p.ackId == s.captureAckId && p.seqNo == |s.captured| + 1 && p.payload != []
    ensures Step(s, p) == Outcome(s.(captured := s.captured + [p], last := KeyOf(p)), DataCaptured, [])
  {
  }

  /** The frames of one burst, in order, to a handler that has just opened the capture. */
  lemma {:induction false} InOrderCapture(s: State, ds: seq<Packet>)
    requires s.configured && s.capture && s.captured == [] && s.last == Key(s.captureAckId, 0)
    requires BurstData(s, s.captureAckId, ds)
    ensures Run(s, ds).next == s.(captured := ds, last := Key(s.captureAckId, |ds|)) && Run(s, ds).calls == []
    decreases |ds|
  {
    hide Step;
    if ds != [] {
      var n := |ds| - 1;
      InOrderCapture(s, ds[..n]);
      NextIsCaptured(Run(s, ds[..n]).next, ds[n]);
      assert ds[..n] + [ds[n]] == ds;
    }
  }

  /** A burst of at most 254 fragments, each frame once and in order, to an idle handler. */
  lemma BurstIsDelivered(s: State, r: Route, data: seq<byte>)
    requires Idle(s) && Addressed(s, r) && s.last != Key(r.ackId, 0) && Fits(data)
    ensures Run(s, Framed(r, data)).next == s.(last := Key(r.ackId, SEQ_END))
    ensures Run(s, Framed(r, data)).calls == [Delivered(DataPackets(r, data, 1))]
  {
    var ds := DataPackets(r, data, 1);
    var open := Step(s, Begin(r)).next;
    FragmentsAreBurstData(open, r, data);
    InOrderCapture(open, ds);
    FramedRun(s, r, data);
  }

  lemma ThreeParts(s: State, first: Packet, middle: seq<Packet>, last: Packet)
    ensures var a := Step(s, first);
            var b := Run(a.next, middle);
            var c := Step(b.next, last);
            var r := Run(s, [first] + middle + [last]);
            r.next == c.next && r.calls == a.calls + b.calls + c.calls
  {
    RunOne(s, first);
    RunAppend(s, [first], middle);
    RunSnoc(s, [first] + middle, last);
  }

  /** A framed burst through any handler: BEGIN, the fragments, END. */
  lemma FramedRun(s: State, r: Route, data: seq<byte>)
    ensures var a := Step(s, Begin(r));
            var b := Run(a.next, DataPackets(r, data, 1));
            var c := Step(b.next, End(r));
            var q := Run(s, Framed(r, data));
            q.next == c.next && q.calls == a.calls + b.calls + c.calls
  {
    ThreeParts(s, Begin(r), DataPackets(r, data, 1), End(r));
  }

  /** Data packets of one ack id, neighbours with different keys. */
  predicate CommandLike(s: State, ackId: byte, ps: seq<Packet>) {
    && (forall k | 0 <= k < |ps| :: Passes(s, ps[k]) && ps[k].ackId == ackId && ps[k].payload != [])
    && (forall k | 0 < k < |ps| :: ps[k].seqNo != ps[k - 1].seqNo)
  }

  /** Such packets to an idle handler: each is a command unless the ack id is 0, and the very first is dropped
      if its key was the last one seen. */
  lemma {:induction false} IdleHandlerRoutes(s: State, ackId: byte, ps: seq<Packet>)
    requires Idle(s) && CommandLike(s, ackId, ps) && ps != []
    ensures Run(s, ps).next == s.(last := KeyOf(ps[|ps| - 1]))
    ensures Run(s, ps).calls == if ackId == 0 then [] else Commands(ps[if s.last == KeyOf(ps[0]) then 1 else 0..])
    decreases |ps|
  {
    hide Commands, Run, Step;
    var n := |ps| - 1;
    if n == 0 {
      OnePacketRoutes(s, ackId, ps);
    } else {
      var before, p := ps[..n], ps[n];
      var skip := if s.last == KeyOf(ps[0]) then 1 else 0;
      IdleHandlerRoutes(s, ackId, before);
      IdleHandlerRoutesOne(Run(s, before).next, p);
      RunSnoc(s, before, p);
      assert before + [p] == ps;
      CommandsSnoc(before[skip..], p);
      assert before[skip..] + [p] == ps[skip..];
    }
  }

  lemma OnePacketRoutes(s: State, ackId: byte, ps: seq<Packet>)
    requires Idle(s) && CommandLike(s, ackId, ps) && |ps| == 1
    ensures Run(s, ps).next == s.(last := KeyOf(ps[0]))
    ensures Run(s, ps).calls == if ackId == 0 then [] else Commands(ps[if s.last == KeyOf(ps[0]) then 1 else 0..])
  {
    RunOne(s, ps[0]);
    assert [ps[0]] == ps;
    assert ps[1..] == [] && ps[0..] == ps;
  }

  lemma IdleHandlerRoutesOne(s: State, p: Packet)
    requires Idle(s) && Passes(s, p) && p.payload != [] && KeyOf(p) != s.last
    ensures Step(s, p).next == s.(last := KeyOf(p))
    ensures Step(s, p).calls == if p.ackId == 0 then [] else [Command(p)]
  {
  }

  /** The last key seen is that of the burst's BEGIN, the burst as long as it may be: BEGIN is dropped, and the
      fragments go to the command callback, or nowhere when the ack id is 0. */
  lemma UnopenedBurst(s: State, r: Route, data: seq<byte>)
    requires Idle(s) && Addressed(s, r) && s.last == Key(r.ackId, 0)
    ensures Run(s, Framed(r, data)).next == s.(last := Key(r.ackId, SEQ_END))
    ensures Run(s, Framed(r, data)).calls == if r.ackId == 0 then [] else Commands(DataPackets(r, data, 1))
  {
    FramedRun(s, r, data);
    UnopenedFragments(s, r, data);
    EndToIdle(Run(s, DataPackets(r, data, 1)).next, r);
    var fragments := Run(s, DataPackets(r, data, 1)).calls;
    assert [] + fragments + [] == fragments;
  }

  lemma EndToIdle(s: State, r: Route)
    requires Idle(s) && Addressed(s, r)
    ensures Step(s, End(r)).next == s.(last := Key(r.ackId, SEQ_END)) && Step(s, End(r)).calls == []
  {
  }

  lemma UnopenedFragments(s: State, r: Route, data: seq<byte>)
    requires Idle(s) && Addressed(s, r) && s.last == Key(r.ackId, 0)
    ensures var q := Run(s, DataPackets(r, data, 1));
            && q.next == s.(last := q.next.last)
            && q.calls == if r.ackId == 0 then [] else Commands(DataPackets(r, data, 1))
  {
    hide Chunk, Step;
    var ds := DataPackets(r, data, 1);
    FragmentsAreDistinctNeighbours(s, r, data, 1);
    if ds != [] {
      IdleHandlerRoutes(s, r.ackId, ds);
      assert ds[0].seqNo == 1 && ds[0..] == ds;
    }
  }

  /** Exactly when a whole burst, presented in order to an idle handler, is delivered. The key of a freshly
      initialised handler is (0, 0), so a first burst under ack id 0 is not. */
  lemma BurstIsDeliveredIff(s: State, r: Route, data: seq<byte>)
    requires Idle(s) && Addressed(s, r) && Fits(data)
    ensures Delivered(DataPackets(r, data, 1)) in Run(s, Framed(r, data)).calls <==> s.last != Key(r.ackId, 0)
    ensures s.last == Key(r.ackId, 0) ==> forall ps :: Delivered(ps) !in Run(s, Framed(r, data)).calls
  {
    if s.last == Key(r.ackId, 0) {
      UnopenedBurst(s, r, data);
    } else {
      BurstIsDelivered(s, r, data);
    }
  }

  /** That first burst: a fresh handler delivers nothing of a blob under ack id 0, nor passes it on as commands. */
  lemma FirstBurstUnderIdZeroIsLost(host: word, remote: word, data: seq<byte>)
    ensures Run(Initial(host, remote), Framed(Route(host, remote, 0), data)).calls == []
  {
    UnopenedBurst(Initial(host, remote), Route(host, remote, 0), data);
  }

  // ---- A burst lost, repeated and reordered between BEGIN and END ----

  /** The duplicate key is the initial one or that of some packet of the trace that passed the address filter. */
  lemma {:induction false} LastKeyComesFrom(s: State, t: seq<Packet>)
    requires s.configured
    ensures var n := Run(s, t).next;
            && n.configured && n.host == s.host && n.remote == s.remote
            && (n.last == s.last || exists p :: p in t && Passes(s, p) && KeyOf(p) == n.last)
    decreases |t|
  {
    if t != [] {
      var before := t[..|t| - 1];
      LastKeyComesFrom(s, before);
      assert forall p | p in before :: p in t;
      assert t[|t| - 1] in t;
    }
  }

  /** Between BEGIN and END, let the data frames of a burst be lost, repeated and reordered in any way and mixed with
      commands and other noise: END delivers exactly the longest prefix of the burst that arrived in order, so the
      whole blob if and only if all its fragments did. */
  lemma ReorderedBurst(s: State, r: Route, data: seq<byte>, t: seq<Packet>)
    requires Idle(s) && Addressed(s, r) && s.last != Key(r.ackId, 0) && Fits(data)
    requires forall p | p in t :: p in DataPackets(r, data, 1) || Noise(s, r.ackId, p)
    ensures var ds := DataPackets(r, data, 1);
            var calls := Run(s, [Begin(r)] + t + [End(r)]).calls;
            && calls != []
            && (exists k: nat :: LongestPrefix(ds, t, k) && calls[|calls| - 1] == Delivered(ds[..k]))
            && (calls[|calls| - 1] == Delivered(ds) <==> Occurs(ds, t))
  {
    hide DataPackets, Occurs, Run;
    var ds := DataPackets(r, data, 1);
    var open := Step(s, Begin(r)).next;
    FragmentsAreBurstData(open, r, data);
    CaptureIsLongestPrefix(open, r.ackId, ds, t);
    LastKeyComesFrom(open, t);
    var n := Run(open, t).next;
    var k := |n.captured|;
    assert n.last != KeyOf(End(r)) by {
      assert forall p | p in ds :: p.seqNo <= CAPTURE_MAX;
    }
    ThreeParts(s, Begin(r), t, End(r));
    assert Step(n, End(r)).calls == [Delivered(ds[..k])];
    assert ds[..|ds|] == ds;
  }

  /** The same with empty frames of the burst's own ack id mixed in, which can shadow fragments: END delivers the
      longest prefix that arrived in order and not shadowed, so the whole blob if and only if all its fragments did. */
  lemma ShadowedBurst(s: State, r: Route, data: seq<byte>, t: seq<Packet>)
    requires Idle(s) && Addressed(s, r) && s.last != Key(r.ackId, 0) && Fits(data)
    requires forall p | p in t :: p in DataPackets(r, data, 1) || Noise(s, r.ackId, p) || IsEmptyFrame(s, r.ackId, p)
    ensures var ds := DataPackets(r, data, 1);
            var open := s.(last := Key(r.ackId, 0));
            var calls := Run(s, [Begin(r)] + t + [End(r)]).calls;
            && calls != []
            && (exists k: nat :: LongestPrefix(ds, Unshadowed(open, t), k) && calls[|calls| - 1] == Delivered(ds[..k]))
            && (calls[|calls| - 1] == Delivered(ds) <==> Occurs(ds, Unshadowed(open, t)))
  {
    hide DataPackets, Occurs, Run, Unshadowed;
    var ds := DataPackets(r, data, 1);
    var open := Step(s, Begin(r)).next;
    FragmentsAreBurstData(open, r, data);
    CaptureIsLongestUnshadowedPrefix(open, r.ackId, ds, t);
    UnshadowedIgnoresTheCapture(s.(last := Key(r.ackId, 0)), open, t);
    LastKeyComesFrom(open, t);
    var n := Run(open, t).next;
    var k := |n.captured|;
    assert n.last != KeyOf(End(r)) by {
      assert forall p | p in ds :: p.seqNo <= CAPTURE_MAX;
    }
    ThreeParts(s, Begin(r), t, End(r));
    assert Step(n, End(r)).calls == [Delivered(ds[..k])];
    assert ds[..|ds|] == ds;
  }

  lemma {:induction false} UnshadowedIgnoresTheCapture(s: State, n: State, t: seq<Packet>)
    requires s.host == n.host && s.remote == n.remote && s.last == n.last
    ensures Unshadowed(s, t) == Unshadowed(n, t) && LastPassing(s, t) == LastPassing(n, t)
    decreases |t|
  {
    if t != [] {
      UnshadowedIgnoresTheCapture(s, n, t[..|t| - 1]);
    }
  }

  // ---- Unframed packets are commands ----

  /** Exactly when every packet of an unframed blob, of any length, reaches the command callback, in order.
      Otherwise the first is lost as a duplicate, or, with ack id 0, all of them are rejected. */
  lemma UnframedPacketsAreCommandsIff(s: State, r: Route, data: seq<byte>)
    requires Idle(s) && Addressed(s, r) && data != []
    ensures var u := PacketArray(r, data, false);
            var calls := Run(s, u).calls;
            && (calls == Commands(u) <==> r.ackId != 0 && s.last != Key(r.ackId, 0))
            && (r.ackId == 0 ==> calls == [])
            && (r.ackId != 0 && s.last == Key(r.ackId, 0) ==> calls == Commands(u[1..]))
  {
    var u := PacketArray(r, data, false);
    FragmentsAreDistinctNeighbours(s, r, data, 0);
    IdleHandlerRoutes(s, r.ackId, u);
    assert u[0].seqNo == 0 && u[0..] == u;
  }
}
