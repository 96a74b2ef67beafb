/** Retransmission is invisible: repeating packets of a trace in place changes nothing the handler does. */
module Stuttering {
  import opened Packets
  import opened Handler

  function Copies<T>(x: T, n: nat): (r: seq<T>)
    ensures |r| == n
  {
    seq(n, i => x)
  }

  /** `t` with `extra[i]` further copies of `t[i]` right behind it. */
  function Repeat(t: seq<Packet>, extra: seq<nat>): seq<Packet>
    requires |t| == |extra|
  {
    if t == [] then []
    else Repeat(t[..|t| - 1], extra[..|t| - 1]) + ([t[|t| - 1]] + Copies(t[|t| - 1], extra[|t| - 1]))
  }

  /** What a repeated packet returns. */
  function RepeatReturn(s: State, p: Packet): Return {
    if !s.configured then NotConfigured
    else if Passes(s, p) then PacketRedundant
    else PacketRejected
  }

  function RepeatReturns(s: State, t: seq<Packet>, rets: seq<Return>, extra: seq<nat>): seq<Return>
    requires |t| == |extra| == |rets|
  {
    if t == [] then []
    else
      var n := |t| - 1;
      RepeatReturns(s, t[..n], rets[..n], extra[..n]) + ([rets[n]] + Copies(RepeatReturn(s, t[n]), extra[n]))
  }

  lemma RepeatedStep(s: State, p: Packet)
    ensures var o := Step(s, p);
            Step(o.next, p) == Outcome(o.next, RepeatReturn(s, p), []) && RepeatReturn(o.next, p) == RepeatReturn(s, p)
  {
  }

  lemma {:induction false} CopiesAreInert(s: State, p: Packet, n: nat)
    requires Step(s, p) == Outcome(s, RepeatReturn(s, p), [])
    ensures Run(s, Copies(p, n)) == Result(s, Copies(RepeatReturn(s, p), n), [])
  {
    if n > 0 {
      CopiesAreInert(s, p, n - 1);
      assert Copies(p, n)[..n - 1] == Copies(p, n - 1);
    }
  }

  lemma FirstAndCopies(s: State, p: Packet, n: nat)
    ensures var o := Step(s, p);
            Run(s, [p] + Copies(p, n)) == Result(o.next, [o.ret] + Copies(RepeatReturn(s, p), n), o.calls)
  {
    hide Copies, RepeatReturn, Run, Step;
    var o := Step(s, p);
    RepeatedStep(s, p);
    CopiesAreInert(o.next, p, n);
    RunOne(s, p);
    RunAppend(s, [p], Copies(p, n));
    assert o.calls + [] == o.calls;
  }

  /** Same final state, same callbacks in the same order; every extra copy that passes the address filter
      returns PACKET_REDUNDANT and the originals return what they returned before. */
  lemma {:induction false} StutterInvariance(s: State, t: seq<Packet>, extra: seq<nat>)
    requires |t| == |extra|
    ensures var r := Run(s, t);
            Run(s, Repeat(t, extra)) == Result(r.next, RepeatReturns(s, t, r.rets, extra), r.calls)
    decreases |t|
  {
    hide Copies, Step;
    if t != [] {
      var n := |t| - 1;
      var p := t[n];
      var before := t[..n];
      StutterInvariance(s, before, extra[..n]);
      ConfigurationIsKept(s, before);
      var r := Run(s, before);
      FirstAndCopies(r.next, p, extra[n]);
      RunAppend(s, Repeat(before, extra[..n]), [p] + Copies(p, extra[n]));
      assert Run(s, t).rets[..n] == r.rets;
    }
  }
}
