/** The whole system: sender and receiver automata with a lossy FIFO channel each way, as a machine whose
    every choice (loss, failed transmission, failed reception, interleaving) is a label. */
module Arq {
  import opened Packets
  import opened Codec
  import opened Fragments
  import opened Protocol
  import opened Stream
  import H = Handler

  /** The blob being sent, its sender, the frames under way, the receiver, the acknowledgements under way. */
  datatype World = World(
    blob: nat,
    sender: Sender,
    data: seq<seq<byte>>,
    receiver: Receiver,
    acks: seq<seq<byte>>)

  datatype Label =
    | Send(aired: bool, status: Status)         // one transmission attempt of the current frame
    | SenderHears                               // the oldest acknowledgement arrives
    | SenderHearsGarbage                        // a failed reception, parsed from the scrubbed buffer
    | SenderHearsNothing(error: Status)         // the wait itself fails
    | LoseFrame(i: nat)
    | LoseAck(i: nat)
    | ReceiverHears
    | ReceiverHearsGarbage
    | ReceiverReplies(sent: bool, outcome: Status)
    | ReceiverHandles
    | NextBlob                                  // the application goes on after a success

  function Start(c: Setup): World
    requires c.Valid()
  {
    World(0, StartSender(c.FramesOf(c.blobs[0])), [], Receiver(c.start, [], Listening), [])
  }

  /** A frame the parser can take. */
  predicate Arrives(frame: seq<byte>) {
    |frame| <= BUFFER_SIZE && Parsable(Overlay(frame, Zeros(BUFFER_SIZE)))
  }

  function Without<T>(s: seq<T>, i: nat): seq<T>
    requires i < |s|
  {
    s[..i] + s[i + 1..]
  }

  function SenderDoes(w: World, e: RadioEvent): Option<World> {
    match NextSender(w.sender, e)
    case None => None
    case Some(s) => Some(w.(sender := s))
  }

  function ReceiverDoes(w: World, e: RxEvent): Option<World> {
    match NextReceiver(w.receiver, e)
    case None => None
    case Some(r) => Some(w.(receiver := r))
  }

  /** One step; None when the label is not enabled. */
  function Do(c: Setup, w: World, l: Label): Option<World> {
    match l
    case Send(aired, status) =>
      if w.sender.acked >= |w.sender.frames| then None
      else
        var frame := Encode(w.sender.frames[w.sender.acked]);
        SenderDoes(w.(data := w.data + if aired then [frame] else []), Transmit(frame, aired, status))
    case SenderHears =>
      if w.acks == [] || !Arrives(w.acks[0]) then None
      else SenderDoes(w.(acks := w.acks[1..]), Listen(Got(Received(w.acks[0]))))
    case SenderHearsGarbage => SenderDoes(w, Listen(Got(ZERO_PACKET)))
    case SenderHearsNothing(error) => SenderDoes(w, Listen(Silence(error)))
    case LoseFrame(i) => if i < |w.data| then Some(w.(data := Without(w.data, i))) else None
    case LoseAck(i) => if i < |w.acks| then Some(w.(acks := Without(w.acks, i))) else None
    case ReceiverHears =>
      if w.data == [] || !Arrives(w.data[0]) then None
      else ReceiverDoes(w.(data := w.data[1..]), Radio(Listen(Got(Received(w.data[0])))))
    case ReceiverHearsGarbage => ReceiverDoes(w, Radio(Listen(Got(ZERO_PACKET))))
    case ReceiverReplies(sent, outcome) =>
      if !w.receiver.phase.Replying? then None
      else
        var frame := Encode(ReplyTo(w.receiver.phase.p));
        ReceiverDoes(w.(acks := w.acks + if sent then [frame] else []), Radio(Transmit(frame, sent, outcome)))
    case ReceiverHandles => ReceiverDoes(w, Handled)
    case NextBlob =>
      if w.sender.result == Some(Ok) && w.blob + 1 < |c.blobs|
      then Some(w.(blob := w.blob + 1, sender := StartSender(c.FramesOf(c.blobs[w.blob + 1]))))
      else None
  }

  function Execute(c: Setup, w: World, ls: seq<Label>): Option<World> {
    if ls == [] then Some(w)
    else
      match Execute(c, w, ls[..|ls| - 1])
      case None => None
      case Some(v) => Do(c, v, ls[|ls| - 1])
  }

  /** The channels are queues: what goes on the air comes in at the back, what is heard leaves at the front, and any
      frame anywhere can be lost. */
  lemma ChannelsAreLossyQueues(c: Setup, w: World, l: Label)
    requires Do(c, w, l).Some?
    ensures var v := Do(c, w, l).value;
            match l
            case Send(aired, _) =>
              && w.sender.acked < |w.sender.frames|
              && v.data == w.data + (if aired then [Encode(w.sender.frames[w.sender.acked])] else [])
              && v.acks == w.acks
            case ReceiverHears => w.data != [] && w.data == [w.data[0]] + v.data && v.acks == w.acks
            case SenderHears => w.acks != [] && w.acks == [w.acks[0]] + v.acks && v.data == w.data
            case ReceiverReplies(sent, _) =>
              && w.receiver.phase.Replying? && v.data == w.data
              && v.acks == w.acks + if sent then [Encode(ReplyTo(w.receiver.phase.p))] else []
            case LoseFrame(i) => i < |w.data| && v.data == w.data[..i] + w.data[i + 1..] && v.acks == w.acks
            case LoseAck(i) => i < |w.acks| && v.acks == w.acks[..i] + w.acks[i + 1..] && v.data == w.data
            case _ => v.data == w.data && v.acks == w.acks
  {
  }

  lemma AnyFrameCanBeLost(c: Setup, w: World, i: nat)
    ensures i < |w.data| ==> Do(c, w, LoseFrame(i)).Some?
    ensures i < |w.acks| ==> Do(c, w, LoseAck(i)).Some?
  {
  }

  // ---- The invariant ----

  /** Frames of the whole stream acknowledged so far. */
  function Position(c: Setup, w: World): nat
    requires w.blob <= |c.blobs|
  {
    |c.Frames(w.blob)| + w.sender.acked
  }

  /** The sender is on the `blob`-th blob. */
  predicate SenderAgrees(c: Setup, w: World) {
    && w.blob < |c.blobs| && w.sender.frames == c.FramesOf(c.blobs[w.blob])
    && w.sender.acked <= |w.sender.frames|
    && (w.sender.result == Some(Ok) <==> w.sender.acked == |w.sender.frames|)
  }

  // A channel under the alternating bit: first frames of one kind, then frames of the next, garbage anywhere.

  type Frame = seq<byte>

  predicate Is(x: Frame, kind: Option<Frame>) {
    kind == Some(x)
  }

  predicate Alternates(q: seq<Frame>, k: nat, garbage: Option<Frame>, before: Option<Frame>, current: Option<Frame>) {
    && k <= |q|
    && (forall x | 0 <= x < k :: Is(q[x], garbage) || Is(q[x], before))
    && (forall x | k <= x < |q| :: Is(q[x], garbage) || Is(q[x], current))
  }

  lemma AlternatesWithout(q: seq<Frame>, k: nat, garbage: Option<Frame>, before: Option<Frame>, current: Option<Frame>,
                          i: nat)
    requires Alternates(q, k, garbage, before, current) && i < |q|
    ensures Alternates(Without(q, i), if i < k then k - 1 else k, garbage, before, current)
    ensures i == 0 ==> q[1..] == Without(q, i)
  {
    var w := Without(q, i);
    assert forall x | 0 <= x < |w| :: w[x] == if x < i then q[x] else q[x + 1];
  }

  lemma AlternatesAppend(q: seq<Frame>, k: nat, garbage: Option<Frame>, before: Option<Frame>, current: Option<Frame>,
                         x: Frame)
    requires Alternates(q, k, garbage, before, current)
    ensures Is(x, garbage) || Is(x, current) ==> Alternates(q + [x], k, garbage, before, current)
    ensures k == |q| && (Is(x, garbage) || Is(x, before)) ==> Alternates(q + [x], k + 1, garbage, before, current)
  {
  }

  /** When the next frame becomes current, what was current is all there is, and comes before. */
  lemma AlternatesShift(q: seq<Frame>, garbage: Option<Frame>, before: Option<Frame>, current: Option<Frame>,
                        next: Option<Frame>)
    requires Alternates(q, 0, garbage, before, current)
    ensures Alternates(q, |q|, garbage, current, next)
  {
  }

  /** F(i), or its reply, as it travels. */
  function FrameOf(f: seq<Packet>, i: int): Option<Frame> {
    if 0 <= i < |f| then Some(Encode(f[i])) else None
  }

  function ReplyOf(f: seq<Packet>, i: int): Option<Frame> {
    if 0 <= i < |f| then Some(Encode(ReplyTo(f[i]))) else None
  }

  function Current(active: bool, kind: Option<Frame>): Option<Frame> {
    if active then kind else None
  }

  /** With `g` frames acknowledged, the data channel is F(g-1)* F(g)*, its first part `m` long; the acknowledgement
      channel is A(g-1)* A(g)*, its first part `n` long, replies to garbage aside. `r` frames have been heard; once
      F(g) has been, no F(g-1) is under way any more, and no A(g) is before. While the sender is not `active`,
      waiting for the next blob or done, there is no F(g) and no A(g). */
  predicate ChannelsAgree(f: seq<Packet>, g: nat, active: bool, r: nat, data: seq<Frame>, m: nat,
                          acks: seq<Frame>, n: nat)
  {
    && g <= r <= g + 1 && r <= |f| && (active ==> g < |f|) && (r == g + 1 ==> active)
    && Alternates(data, m, None, FrameOf(f, g as int - 1), Current(active, FrameOf(f, g)))
    && (r == g + 1 ==> m == 0)
    && Alternates(acks, n, Some(Encode(ZERO_PACKET)), ReplyOf(f, g as int - 1), Current(active, ReplyOf(f, g)))
    && (n < |acks| ==> r == g + 1)
  }

  /** The receiver has handled `h` of the `r` frames it heard, each frame of the stream once and in order as far as
      state and callbacks go; what it is busy with is garbage or the last frame heard. */
  predicate ReceiverAgrees(s: H.State, f: seq<Packet>, q: Receiver, r: nat, h: nat) {
    && h <= r <= h + 1 && r <= |f|
    && q.handler == H.Run(s, f[..h]).next && q.calls == H.Run(s, f[..h]).calls
    && match q.phase
       case Listening => h == r
       case Replying(p) => (p == ZERO_PACKET && h == r) || (r > 0 && p == f[r - 1])
       case Handling(p) => (p == ZERO_PACKET && h == r) || (r > 0 && p == f[r - 1])
       case Stopped(_) => true
  }

  predicate Agrees(c: Setup, w: World, r: nat, h: nat, m: nat, n: nat) {
    && SenderAgrees(c, w)
    && ChannelsAgree(c.All(), Position(c, w), w.sender.acked < |w.sender.frames|, r, w.data, m, w.acks, n)
    && ReceiverAgrees(c.start, c.All(), w.receiver, r, h)
  }

  ghost predicate Invariant(c: Setup, w: World) {
    exists r: nat, h: nat, m: nat, n: nat :: Agrees(c, w, r, h, m, n)
  }

  // ---- Preservation, step by step ----

  /** The current frame is the frame at the sender's position in the stream, and fits the buffers. */
  lemma CurrentFrame(c: Setup, w: World)
    requires c.Valid() && SenderAgrees(c, w)
    ensures var g := Position(c, w);
            && g <= |c.All()|
            && (w.sender.acked < |w.sender.frames| ==> g < |c.All()| && w.sender.frames[w.sender.acked] == c.All()[g])
  {
    if w.sender.acked < |w.sender.frames| {
      FrameAt(c, w.blob, w.sender.acked);
    } else {
      FramesGrow(c, w.blob + 1, |c.blobs|);
    }
  }

  lemma StreamFrame(c: Setup, i: nat)
    requires c.Valid() && i < |c.All()|
    ensures var p := c.All()[i];
            && p.dest == c.dest && p.src == c.src && (i > 0 ==> KeyOf(c.All()[i - 1]) != KeyOf(p))
            && Arrives(Encode(p)) && Received(Encode(p)) == p
            && Arrives(Encode(ReplyTo(p))) && Received(Encode(ReplyTo(p))) == ReplyTo(p)
  {
    Neighbours(c, |c.blobs|);
    ReceivedEncode(c.All()[i]);
    ReceivedEncode(ReplyTo(c.All()[i]));
  }

  /** Of everything that can be in the acknowledgement channel, only A(g) is taken for F(g). */
  lemma StaleRepliesAreRefused(c: Setup, g: nat, expected: PacketType)
    requires c.Valid() && g < |c.All()|
    ensures !Accepts(c.All()[g], expected, ZERO_PACKET)
    ensures g > 0 ==> !Accepts(c.All()[g], expected, ReplyTo(c.All()[g - 1]))
  {
    StreamFrame(c, g);
    if g > 0 {
      assert KeyOf(c.All()[g - 1]) != KeyOf(c.All()[g]);
    }
  }

  // The channels alone.

  lemma ChannelsSend(f: seq<Packet>, g: nat, r: nat, data: seq<Frame>, m: nat, acks: seq<Frame>, n: nat)
    requires ChannelsAgree(f, g, true, r, data, m, acks, n)
    ensures ChannelsAgree(f, g, true, r, data + [Encode(f[g])], m, acks, n)
  {
    AlternatesAppend(data, m, None, FrameOf(f, g as int - 1), FrameOf(f, g), Encode(f[g]));
  }

  lemma ChannelsLoseFrame(f: seq<Packet>, g: nat, active: bool, r: nat, data: seq<Frame>, m: nat, acks: seq<Frame>,
                          n: nat, i: nat)
    requires ChannelsAgree(f, g, active, r, data, m, acks, n) && i < |data|
    ensures ChannelsAgree(f, g, active, r, Without(data, i), if i < m then m - 1 else m, acks, n)
  {
    AlternatesWithout(data, m, None, FrameOf(f, g as int - 1), Current(active, FrameOf(f, g)), i);
  }

  lemma ChannelsLoseAck(f: seq<Packet>, g: nat, active: bool, r: nat, data: seq<Frame>, m: nat, acks: seq<Frame>,
                        n: nat, i: nat)
    requires ChannelsAgree(f, g, active, r, data, m, acks, n) && i < |acks|
    ensures ChannelsAgree(f, g, active, r, data, m, Without(acks, i), if i < n then n - 1 else n)
  {
    AlternatesWithout(acks, n, Some(Encode(ZERO_PACKET)), ReplyOf(f, g as int - 1), Current(active, ReplyOf(f, g)), i);
  }

  /** The receiver answers garbage, or the last frame it heard. */
  lemma ChannelsReply(f: seq<Packet>, g: nat, active: bool, r: nat, data: seq<Frame>, m: nat, acks: seq<Frame>, n: nat,
                      p: Packet)
    requires ChannelsAgree(f, g, active, r, data, m, acks, n)
    requires p == ZERO_PACKET || (r > 0 && p == f[r - 1])
    ensures ChannelsAgree(f, g, active, r, data, m, acks + [Encode(ReplyTo(p))], if r == g then n + 1 else n)
  {
    assert ReplyTo(ZERO_PACKET) == ZERO_PACKET;
    AlternatesAppend(acks, n, Some(Encode(ZERO_PACKET)), ReplyOf(f, g as int - 1), Current(active, ReplyOf(f, g)),
                     Encode(ReplyTo(p)));
  }

  /** The current frame is acknowledged: everything still under way now belongs to the frame before. */
  lemma ChannelsAccept(f: seq<Packet>, g: nat, r: nat, data: seq<Frame>, acks: seq<Frame>, active: bool)
    requires ChannelsAgree(f, g, true, r, data, 0, acks, 0) && r == g + 1
    requires active ==> g + 1 < |f|
    ensures ChannelsAgree(f, g + 1, active, r, data, |data|, acks, |acks|)
  {
    AlternatesShift(data, None, FrameOf(f, g as int - 1), FrameOf(f, g), Current(active, FrameOf(f, g + 1)));
    AlternatesShift(acks, Some(Encode(ZERO_PACKET)), ReplyOf(f, g as int - 1), ReplyOf(f, g),
                    Current(active, ReplyOf(f, g + 1)));
  }

  /** The sender goes on to a next frame, of which nothing is under way yet. */
  lemma ChannelsActivate(f: seq<Packet>, g: nat, r: nat, data: seq<Frame>, m: nat, acks: seq<Frame>, n: nat)
    requires ChannelsAgree(f, g, false, r, data, m, acks, n) && g < |f|
    ensures ChannelsAgree(f, g, true, r, data, m, acks, n)
  {
  }

  /** What the oldest acknowledgement is, and what that says about the state. */
  lemma OldestAck(f: seq<Packet>, g: nat, active: bool, r: nat, data: seq<Frame>, m: nat, acks: seq<Frame>, n: nat)
    requires ChannelsAgree(f, g, active, r, data, m, acks, n) && acks != []
    ensures || acks[0] == Encode(ZERO_PACKET)
            || (n > 0 && 0 < g <= |f| && acks[0] == Encode(ReplyTo(f[g - 1])))
            || (n == 0 && r == g + 1 && acks[0] == Encode(ReplyTo(f[g])))
  {
    var x := acks[0];
    assert n > 0 ==> Is(x, Some(Encode(ZERO_PACKET))) || Is(x, ReplyOf(f, g as int - 1));
    assert n == 0 ==> Is(x, Some(Encode(ZERO_PACKET))) || Is(x, Current(active, ReplyOf(f, g)));
  }

  /** What the oldest frame is: the last one heard, or the one after it. */
  lemma OldestFrame(f: seq<Packet>, g: nat, active: bool, r: nat, data: seq<Frame>, m: nat, acks: seq<Frame>, n: nat)
    requires ChannelsAgree(f, g, active, r, data, m, acks, n) && data != []
    ensures if m > 0 then 0 < g == r && data[0] == Encode(f[g - 1])
            else active && data[0] == Encode(f[g])
  {
    var x := data[0];
    assert m > 0 ==> Is(x, None) || Is(x, FrameOf(f, g as int - 1));
    assert m == 0 ==> Is(x, None) || Is(x, Current(active, FrameOf(f, g)));
  }

  /** The receiver takes the oldest frame off the channel. */
  lemma ChannelsHear(f: seq<Packet>, g: nat, active: bool, r: nat, data: seq<Frame>, m: nat, acks: seq<Frame>, n: nat)
    requires ChannelsAgree(f, g, active, r, data, m, acks, n) && data != []
    ensures if m > 0 then ChannelsAgree(f, g, active, r, data[1..], m - 1, acks, n)
            else ChannelsAgree(f, g, active, g + 1, data[1..], 0, acks, n)
  {
    ChannelsLoseFrame(f, g, active, r, data, m, acks, n, 0);
    OldestFrame(f, g, active, r, data, m, acks, n);
    assert data[1..] == Without(data, 0);
  }

  // The whole state.

  lemma SendKeeps(c: Setup, w: World, aired: bool, status: Status, r: nat, h: nat, m: nat, n: nat)
    requires c.Valid() && Agrees(c, w, r, h, m, n) && Do(c, w, Send(aired, status)).Some?
    ensures Agrees(c, Do(c, w, Send(aired, status)).value, r, h, m, n)
  {
    hide Alternates, H.Run, H.Step, Setup.Frames;
    CurrentFrame(c, w);
    ChannelsSend(c.All(), Position(c, w), r, w.data, m, w.acks, n);
    assert w.data + [] == w.data;
  }

  /** Listening in vain: another attempt, or the end of them; nothing else changes. */
  lemma VainListenKeeps(c: Setup, w: World, e: RadioEvent, r: nat, h: nat, m: nat, n: nat)
    requires c.Valid() && Agrees(c, w, r, h, m, n) && e.Listen?
    requires w.sender.acked < |w.sender.frames| ==>
               !IsAcceptance(w.sender.frames[w.sender.acked], Expected(w.sender.acked, |w.sender.frames|), e)
    requires SenderDoes(w, e).Some?
    ensures Agrees(c, SenderDoes(w, e).value, r, h, m, n)
  {
  }

  lemma LoseFrameKeeps(c: Setup, w: World, i: nat, r: nat, h: nat, m: nat, n: nat)
    requires c.Valid() && Agrees(c, w, r, h, m, n) && i < |w.data|
    ensures Agrees(c, w.(data := Without(w.data, i)), r, h, if i < m then m - 1 else m, n)
  {
    ChannelsLoseFrame(c.All(), Position(c, w), w.sender.acked < |w.sender.frames|, r, w.data, m, w.acks, n, i);
  }

  lemma LoseAckKeeps(c: Setup, w: World, i: nat, r: nat, h: nat, m: nat, n: nat)
    requires c.Valid() && Agrees(c, w, r, h, m, n) && i < |w.acks|
    ensures Agrees(c, w.(acks := Without(w.acks, i)), r, h, m, if i < n then n - 1 else n)
  {
    ChannelsLoseAck(c.All(), Position(c, w), w.sender.acked < |w.sender.frames|, r, w.data, m, w.acks, n, i);
  }

  /** Unless it is the reply to the current frame, heard by now and with nothing older under way, the oldest
      acknowledgement is refused. */
  lemma OldestAckJudged(c: Setup, w: World, r: nat, h: nat, m: nat, n: nat)
    requires c.Valid() && Agrees(c, w, r, h, m, n) && w.acks != [] && w.sender.acked < |w.sender.frames|
    ensures Arrives(w.acks[0])
    ensures var e := Listen(Got(Received(w.acks[0])));
            IsAcceptance(w.sender.frames[w.sender.acked], Expected(w.sender.acked, |w.sender.frames|), e) ==>
              n == 0 && r == Position(c, w) + 1
  {
    var f, g := c.All(), Position(c, w);
    CurrentFrame(c, w);
    OldestAck(f, g, true, r, w.data, m, w.acks, n);
    ReceivedEncode(ZERO_PACKET);
    StaleRepliesAreRefused(c, g, Expected(w.sender.acked, |w.sender.frames|));
    StreamFrame(c, g);
    if g > 0 {
      StreamFrame(c, g - 1);
    }
  }

  lemma SenderHearsKeeps(c: Setup, w: World, r: nat, h: nat, m: nat, n: nat) returns (m': nat, n': nat)
    requires c.Valid() && Agrees(c, w, r, h, m, n) && Do(c, w, SenderHears).Some?
    ensures Agrees(c, Do(c, w, SenderHears).value, r, h, m', n')
  {
    var e := Listen(Got(Received(w.acks[0])));
    var v := w.(acks := Without(w.acks, 0));
    assert v.acks == w.acks[1..];
    LoseAckKeeps(c, w, 0, r, h, m, n);
    OldestAckJudged(c, w, r, h, m, n);
    if IsAcceptance(w.sender.frames[w.sender.acked], Expected(w.sender.acked, |w.sender.frames|), e) {
      m', n' := |w.data|, |v.acks|;
      AcceptedFrameMovesOn(c, v, e, r, h);
    } else {
      m', n' := m, if 0 < n then n - 1 else n;
      VainListenKeeps(c, v, e, r, h, m', n');
    }
  }

  lemma AcceptedFrameMovesOn(c: Setup, w: World, e: RadioEvent, r: nat, h: nat)
    requires c.Valid() && Agrees(c, w, r, h, 0, 0) && r == Position(c, w) + 1
    requires w.sender.acked < |w.sender.frames|
    requires IsAcceptance(w.sender.frames[w.sender.acked], Expected(w.sender.acked, |w.sender.frames|), e)
    requires SenderDoes(w, e).Some?
    ensures Agrees(c, SenderDoes(w, e).value, r, h, |w.data|, |w.acks|)
  {
    hide Alternates, H.Run, H.Step, Setup.FramesOf;
    var v := SenderDoes(w, e).value;
    assert Position(c, v) == Position(c, w) + 1 && SenderAgrees(c, v);
    CurrentFrame(c, v);
    ChannelsAccept(c.All(), Position(c, w), r, w.data, w.acks, v.sender.acked < |v.sender.frames|);
  }

  /** The oldest frame is the last one heard, or the one after it, which was never heard before or is the last. */
  lemma OldestFrameHeard(c: Setup, w: World, r: nat, h: nat, m: nat, n: nat)
    requires c.Valid() && Agrees(c, w, r, h, m, n) && w.data != []
    ensures Arrives(w.data[0])
    ensures var f, g, p := c.All(), Position(c, w), Received(w.data[0]);
            if m > 0 then 0 < r <= |f| && p == f[r - 1] && r == g
            else w.sender.acked < |w.sender.frames| && g < |f| && p == f[g]
  {
    var g := Position(c, w);
    OldestFrame(c.All(), g, w.sender.acked < |w.sender.frames|, r, w.data, m, w.acks, n);
    StreamFrame(c, if m > 0 then g - 1 else g);
  }

  lemma ReceiverTakes(c: Setup, q: Receiver, r: nat, h: nat, p: Packet)
    requires ReceiverAgrees(c.start, c.All(), q, r, h) && q.phase == Listening
    ensures var f, q' := c.All(), q.(phase := Replying(p));
            && (r > 0 && p == f[r - 1] ==> ReceiverAgrees(c.start, f, q', r, h))
            && (r < |f| && p == f[r] ==> ReceiverAgrees(c.start, f, q', r + 1, h))
  {
  }

  lemma ReceiverHearsKeeps(c: Setup, w: World, r: nat, h: nat, m: nat, n: nat) returns (r': nat, m': nat)
    requires c.Valid() && Agrees(c, w, r, h, m, n) && Do(c, w, ReceiverHears).Some?
    ensures Agrees(c, Do(c, w, ReceiverHears).value, r', h, m', n)
  {
    hide Alternates, Encode, Execute, H.Run, H.Step, Received, Setup.Frames;
    ChannelsHear(c.All(), Position(c, w), w.sender.acked < |w.sender.frames|, r, w.data, m, w.acks, n);
    OldestFrameHeard(c, w, r, h, m, n);
    r', m' := if m > 0 then r else Position(c, w) + 1, if m > 0 then m - 1 else 0;
    ReceiverTakes(c, w.receiver, r, h, Received(w.data[0]));
  }

  lemma HearGarbageKeeps(c: Setup, w: World, r: nat, h: nat, m: nat, n: nat)
    requires c.Valid() && Agrees(c, w, r, h, m, n) && Do(c, w, ReceiverHearsGarbage).Some?
    ensures Agrees(c, Do(c, w, ReceiverHearsGarbage).value, r, h, m, n)
  {
    hide Alternates, Encode, H.Run, H.Step, Setup.Frames;
  }

  lemma ReceiverReplied(c: Setup, q: Receiver, phase: RxPhase, r: nat, h: nat)
    requires ReceiverAgrees(c.start, c.All(), q, r, h) && q.phase.Replying?
    requires phase.Stopped? || phase == Handling(q.phase.p)
    ensures ReceiverAgrees(c.start, c.All(), q.(phase := phase), r, h)
  {
  }

  lemma ReceiverRepliesKeeps(c: Setup, w: World, sent: bool, outcome: Status, r: nat, h: nat, m: nat, n: nat)
    returns (n': nat)
    requires c.Valid() && Agrees(c, w, r, h, m, n) && Do(c, w, ReceiverReplies(sent, outcome)).Some?
    ensures Agrees(c, Do(c, w, ReceiverReplies(sent, outcome)).value, r, h, m, n')
  {
    hide Encode, H.Run, Alternates, Setup.Frames, H.Step;
    var g := Position(c, w);
    var v := Do(c, w, ReceiverReplies(sent, outcome)).value;
    ReceiverReplied(c, w.receiver, v.receiver.phase, r, h);
    if sent {
      ChannelsReply(c.All(), g, w.sender.acked < |w.sender.frames|, r, w.data, m, w.acks, n, w.receiver.phase.p);
      n' := if r == g then n + 1 else n;
    } else {
      assert w.acks + [] == w.acks;
      n' := n;
    }
  }

  lemma HandleKeeps(c: Setup, w: World, r: nat, h: nat, m: nat, n: nat)
    requires c.Valid() && Agrees(c, w, r, h, m, n) && Do(c, w, ReceiverHandles).Some?
    ensures Agrees(c, Do(c, w, ReceiverHandles).value, r, r, m, n)
  {
    hide Alternates, H.Run, Setup.Frames;
    HandledOnce(c, w.receiver, r, h);
  }

  /** Handling garbage or a frame seen before changes nothing; a new frame is handled on top of all before it. */
  lemma HandledOnce(c: Setup, q: Receiver, r: nat, h: nat)
    requires c.Valid() && ReceiverAgrees(c.start, c.All(), q, r, h) && q.phase.Handling?
    ensures ReceiverAgrees(c.start, c.All(), NextReceiver(q, Handled).value, r, r)
  {
    hide H.Run, H.Step, Setup.Frames;
    var f := c.All();
    if q.phase.p == ZERO_PACKET && h == r {
      H.RunKeepsWellFormed(c.start, f[..h]);
      H.GarbageIsInert(q.handler);
    } else {
      FrameHandled(c.start, f, q, r, h);
    }
  }

  lemma FrameHandled(s: H.State, f: seq<Packet>, q: Receiver, r: nat, h: nat)
    requires ReceiverAgrees(s, f, q, r, h) && q.phase.Handling? && r > 0 && q.phase.p == f[r - 1]
    ensures ReceiverAgrees(s, f, NextReceiver(q, Handled).value, r, r)
  {
    hide H.Run, H.Step;
    OneMoreFrame(s, f, r - 1);
    RepeatIsInert(H.Run(s, f[..r - 1]).next, f[r - 1]);
    assert q.calls + [] == q.calls;
  }

  lemma OneMoreFrame(s: H.State, f: seq<Packet>, i: nat)
    requires i < |f|
    ensures var before := H.Run(s, f[..i]);
            var after := H.Run(s, f[..i + 1]);
            var o := H.Step(before.next, f[i]);
            after.next == o.next && after.calls == before.calls + o.calls
  {
    H.RunSnoc(s, f[..i], f[i]);
    assert f[..i] + [f[i]] == f[..i + 1];
  }

  lemma RepeatIsInert(s: H.State, p: Packet)
    ensures var o := H.Step(H.Step(s, p).next, p); o.next == H.Step(s, p).next && o.calls == []
  {
  }

  lemma NextBlobKeeps(c: Setup, w: World, r: nat, h: nat, m: nat, n: nat)
    requires c.Valid() && Agrees(c, w, r, h, m, n) && Do(c, w, NextBlob).Some?
    ensures Agrees(c, Do(c, w, NextBlob).value, r, h, m, n)
  {
    hide Alternates, Encode, Execute, H.Run, H.Step, OnLink, ReceiverAgrees;
    var v := Do(c, w, NextBlob).value;
    assert c.Frames(v.blob) == c.Frames(w.blob) + w.sender.frames;
    assert Position(c, v) == Position(c, w);
    OneBlobNeighbours(c, c.blobs[v.blob]);
    CurrentFrame(c, v);
    ChannelsActivate(c.All(), Position(c, w), r, w.data, m, w.acks, n);
  }

  lemma SenderStepKeeps(c: Setup, w: World, l: Label, r: nat, h: nat, m: nat, n: nat)
    requires c.Valid() && Agrees(c, w, r, h, m, n) && Do(c, w, l).Some?
    requires l.Send? || l.SenderHears? || l.SenderHearsGarbage? || l.SenderHearsNothing? || l.NextBlob?
    ensures Invariant(c, Do(c, w, l).value)
  {
    match l {
      case Send(aired, status) =>
        SendKeeps(c, w, aired, status, r, h, m, n);
      case SenderHears =>
        var m', n' := SenderHearsKeeps(c, w, r, h, m, n);
        assert Agrees(c, Do(c, w, l).value, r, h, m', n');
      case SenderHearsGarbage =>
        CurrentFrame(c, w);
        StaleRepliesAreRefused(c, Position(c, w), Expected(w.sender.acked, |w.sender.frames|));
        VainListenKeeps(c, w, Listen(Got(ZERO_PACKET)), r, h, m, n);
      case SenderHearsNothing(error) =>
        VainListenKeeps(c, w, Listen(Silence(error)), r, h, m, n);
      case NextBlob =>
        NextBlobKeeps(c, w, r, h, m, n);
    }
  }

  lemma OtherStepKeeps(c: Setup, w: World, l: Label, r: nat, h: nat, m: nat, n: nat)
    requires c.Valid() && Agrees(c, w, r, h, m, n) && Do(c, w, l).Some?
    requires || l.LoseFrame? || l.LoseAck? || l.ReceiverHears? || l.ReceiverHearsGarbage? || l.ReceiverReplies?
             || l.ReceiverHandles?
    ensures Invariant(c, Do(c, w, l).value)
  {
    hide Agrees, Encode, Execute, H.Run, H.Step;
    match l {
      case LoseFrame(i) =>
        LoseFrameKeeps(c, w, i, r, h, m, n);
      case LoseAck(i) =>
        LoseAckKeeps(c, w, i, r, h, m, n);
      case ReceiverHears =>
        var r', m' := ReceiverHearsKeeps(c, w, r, h, m, n);
        assert Agrees(c, Do(c, w, l).value, r', h, m', n);
      case ReceiverHearsGarbage =>
        HearGarbageKeeps(c, w, r, h, m, n);
      case ReceiverReplies(sent, outcome) =>
        var n' := ReceiverRepliesKeeps(c, w, sent, outcome, r, h, m, n);
        assert Agrees(c, Do(c, w, l).value, r, h, m, n');
      case ReceiverHandles =>
        HandleKeeps(c, w, r, h, m, n);
    }
  }

  lemma StepKeepsInvariant(c: Setup, w: World, l: Label)
    requires c.Valid() && Invariant(c, w) && Do(c, w, l).Some?
    ensures Invariant(c, Do(c, w, l).value)
  {
    var r: nat, h: nat, m: nat, n: nat :| Agrees(c, w, r, h, m, n);
    if l.Send? || l.SenderHears? || l.SenderHearsGarbage? || l.SenderHearsNothing? || l.NextBlob? {
      SenderStepKeeps(c, w, l, r, h, m, n);
    } else {
      OtherStepKeeps(c, w, l, r, h, m, n);
    }
  }

  /** The alternating-bit invariant holds in every reachable state. */
  lemma {:induction false} InvariantAlways(c: Setup, ls: seq<Label>)
    requires c.Valid() && Execute(c, Start(c), ls).Some?
    ensures Invariant(c, Execute(c, Start(c), ls).value)
    decreases |ls|
  {
    if ls == [] {
      OneBlobNeighbours(c, c.blobs[0]);
      CurrentFrame(c, Start(c));
      assert c.All()[..0] == [];
      assert Agrees(c, Start(c), 0, 0, 0, 0);
    } else {
      InvariantAlways(c, ls[..|ls| - 1]);
      StepKeepsInvariant(c, Execute(c, Start(c), ls[..|ls| - 1]).value, ls[|ls| - 1]);
    }
  }
}
