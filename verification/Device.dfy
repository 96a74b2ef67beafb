/** The library's global state and the platform behind it: the SPI port, the clock, the radio's transmit FIFO
    and the two static frame buffers; with the polling, sending and receiving of sx127x_driver.c.

    What the platform answers is fixed in advance by functions nobody constrains: the status and flags of the
    n-th IRQ read, the status and data of the n-th other read, the status of the n-th write, the microseconds
    the n-th platform call takes. */
module Device {
  import opened Packets
  import opened Codec
  import opened PacketCells
  import opened Protocol

  datatype IrqReply = IrqReply(status: Status, flags: bv8)
  datatype ReadReply = ReadReply(status: Status, data: seq<byte>)

  const REG_FIFO: byte := 0x00
  const REG_MODE: byte := 0x01
  const REG_FIFO_ADDR: byte := 0x0D
  const REG_FIFO_TX_BASE: byte := 0x0E
  const REG_FIFO_RX_CURRENT: byte := 0x10
  const REG_IRQ: byte := 0x12
  const REG_RX_BYTES: byte := 0x13
  const REG_PAYLOAD_LENGTH: byte := 0x22

  // MODE_LORA | mode
  const LORA_SLEEP: byte := 0x80
  const LORA_STDBY: byte := 0x81
  const LORA_TX: byte := 0x83
  const LORA_RX_CONTINUOUS: byte := 0x85
  const LORA_RX_SINGLE: byte := 0x86

  const TX_DONE: bv8 := 0x08
  const CRC_ERROR: bv8 := 0x20
  const RX_DONE: bv8 := 0x40

  /** A register write, whether or not it succeeded. */
  datatype SpiWrite = SpiWrite(reg: byte, data: seq<byte>)

  const CLEAR_IRQ := SpiWrite(REG_IRQ, [0xFF])

  function SetMode(mode: byte): SpiWrite {
    SpiWrite(REG_MODE, [mode])
  }

  /** The writes that prepare a transmission; `base` is where the transmit FIFO begins. */
  function LoadScript(base: byte, frame: Payload): seq<SpiWrite> {
    PointScript(base) + FillScript(frame)
  }

  function PointScript(base: byte): seq<SpiWrite> {
    [SetMode(LORA_STDBY), SpiWrite(REG_FIFO_ADDR, [base])]
  }

  function FillScript(frame: Payload): seq<SpiWrite> {
    [SpiWrite(REG_PAYLOAD_LENGTH, [|frame|]), SpiWrite(REG_FIFO, frame), CLEAR_IRQ]
  }

  /** The writes from the start of a transmission on. */
  function TransmitScript(rxAfterTx: bool): seq<SpiWrite> {
    [SetMode(LORA_TX), CLEAR_IRQ, CLEAR_IRQ, SetMode(if rxAfterTx then LORA_RX_CONTINUOUS else LORA_SLEEP)]
  }

  /** A poll for the IRQ flags `mask`, with the mode last written to the radio before. */
  datatype Poll = Poll(mask: bv8, mode: byte)

  /** The mode last written; 0 before there is one. */
  function LastMode(log: seq<SpiWrite>): byte {
    if log == [] then 0
    else
      var w := log[|log| - 1];
      if w.reg == 0x01 && |w.data| == 1 then w.data[0] else LastMode(log[..|log| - 1])
  }

  /** Polls begun since `before`: for TxDone (0x08) in transmit mode (0x83), for RxDone (0x40) in the mode `rx`. */
  predicate PolledIn(before: seq<Poll>, now: seq<Poll>, rx: byte) {
    && before <= now
    && forall k | |before| <= k < |now| :: now[k] == Poll(0x08, 0x83) || now[k] == Poll(0x40, rx)
  }

  lemma TransmitPolls(before: seq<Poll>, aired: bool, rx: byte)
    ensures PolledIn(before, before + if aired then [Poll(0x08, 0x83)] else [], rx)
  {
  }

  lemma NoPolls(polls: seq<Poll>, rx: byte)
    ensures PolledIn(polls, polls, rx)
  {
  }

  lemma PolledInAppend(before: seq<Poll>, mid: seq<Poll>, now: seq<Poll>, rx: byte)
    requires PolledIn(before, mid, rx) && PolledIn(mid, now, rx)
    ensures PolledIn(before, now, rx)
  {
  }

  lemma LastModeAfter(log: seq<SpiWrite>, mode: byte)
    ensures LastMode(log + [SetMode(mode)]) == mode
  {
  }

  /** The scripts in plain numbers. */
  lemma ScriptsInNumbers(base: byte, frame: Payload, rxAfterTx: bool)
    ensures LoadScript(base, frame) == [
              SpiWrite(0x01, [0x81]), SpiWrite(0x0D, [base]), SpiWrite(0x22, [|frame|]), SpiWrite(0x00, frame),
              SpiWrite(0x12, [0xFF])]
    ensures TransmitScript(rxAfterTx) == [
              SpiWrite(0x01, [0x83]), SpiWrite(0x12, [0xFF]), SpiWrite(0x12, [0xFF]),
              SpiWrite(0x01, [if rxAfterTx then 0x85 else 0x80])]
  {
  }

  lemma WholeScript(before: seq<SpiWrite>, base: byte, frame: Payload, rxAfterTx: bool)
    ensures var script := LoadScript(base, frame) + TransmitScript(rxAfterTx);
            |script| == 9 && before + script[..9] == before + LoadScript(base, frame) + TransmitScript(rxAfterTx)
  {
    Associative(before, LoadScript(base, frame), TransmitScript(rxAfterTx));
  }

  lemma ScriptStep<T>(before: seq<T>, script: seq<T>, k: nat)
    requires k < |script|
    ensures before + script[..k] + [script[k]] == before + script[..k + 1]
  {
  }

  /** Part of a script, and the whole of a first script with part of a second, as part of the two together. */
  lemma ScriptParts<T>(before: seq<T>, first: seq<T>, second: seq<T>, k: nat)
    ensures k <= |first| ==> (first + second)[..k] == first[..k]
    ensures k <= |second| ==> before + first + second[..k] == before + (first + second)[..|first| + k]
  {
    if k <= |second| {
      assert first + second[..k] == (first + second)[..|first| + k];
      Associative(before, first, second[..k]);
    }
  }

  /** Of two calls made one after the other as long as they succeed, the status of the first to fail. */
  function Then(first: Status, second: Status): Status {
    if first != Ok then first else second
  }

  /** What the flags say of a reception. */
  function FlagResult(flags: bv8): Status {
    if flags & RX_DONE == 0 then InvalidState else if flags & CRC_ERROR != 0 then InvalidCrc else Ok
  }

  /** What reading `n` bytes from the FIFO stores, when the platform has `data` to give. */
  function Filled(data: seq<byte>, n: nat): (r: seq<byte>)
    ensures |r| == n
  {
    seq(n, k requires 0 <= k < n => if k < |data| then data[k] else 0)
  }

  class Device {
    const irq: nat -> IrqReply
    const spiRead: nat -> ReadReply
    const spiWrite: nat -> Status
    const lag: nat -> nat

    /** The static frame buffers; the transmit buffer is never cleared. */
    const txBuffer: array<byte>
    const rxBuffer: array<byte>

    var irqReads: nat
    var spiReads: nat
    var spiWrites: nat
    var ticks: nat
    var now: int
    var fifo: seq<byte>
    var fifoLength: byte

    /** Register writes attempted. */
    ghost var spi: seq<SpiWrite>
    /** Registers read, other than the IRQ flags. */
    ghost var regReads: seq<byte>
    /** Polls for an IRQ flag begun. */
    ghost var polls: seq<Poll>
    /** Frames the radio was told to transmit. */
    ghost var air: seq<seq<byte>>
    /** What happened at the radio, in terms of the protocol. */
    ghost var trace: seq<RadioEvent>

    /** Received frames announce at most 248 payload bytes, which is what the parser can take. */
    ghost predicate Sane() {
      forall n :: |spiRead(n).data| > 6 ==> spiRead(n).data[6] <= MAX_FRAME_PAYLOAD
    }

    /** Between receptions the receive buffer is all zeros. */
    ghost predicate Valid()
      reads rxBuffer
    {
      && Sane() && txBuffer != rxBuffer
      && txBuffer.Length == BUFFER_SIZE && rxBuffer[..] == Zeros(BUFFER_SIZE)
    }

    constructor (irq: nat -> IrqReply, spiRead: nat -> ReadReply, spiWrite: nat -> Status, lag: nat -> nat)
      requires forall n :: |spiRead(n).data| > 6 ==> spiRead(n).data[6] <= MAX_FRAME_PAYLOAD
      ensures Valid() && fresh(txBuffer) && fresh(rxBuffer)
      ensures this.irq == irq && this.spiRead == spiRead && this.spiWrite == spiWrite && this.lag == lag
      ensures irqReads == 0 && air == [] && trace == []
    {
      this.irq, this.spiRead, this.spiWrite, this.lag := irq, spiRead, spiWrite, lag;
      txBuffer := new byte[BUFFER_SIZE](i => 0);
      rxBuffer := new byte[BUFFER_SIZE](i => 0);
      irqReads, spiReads, spiWrites, ticks, now := 0, 0, 0, 0, 0;
      fifo, fifoLength := [], 0;
      spi, regReads, polls, air, trace := [], [], [], [], [];
    }

    // ---- The platform ----

    method ReadIrq() returns (status: Status, flags: bv8)
      modifies `irqReads
      ensures irqReads == old(irqReads) + 1
      ensures status == irq(old(irqReads)).status
      ensures flags == if status == Ok then irq(old(irqReads)).flags else 0
    {
      var r := irq(irqReads);
      irqReads := irqReads + 1;
      return r.status, if r.status == Ok then r.flags else 0;
    }

    /** One byte; a failed read leaves the caller's variable, and it was initialised to zero. */
    method ReadReg(reg: byte) returns (status: Status, value: byte)
      modifies `spiReads, `regReads
      ensures spiReads == old(spiReads) + 1
      ensures status == spiRead(old(spiReads)).status
      ensures value == if status == Ok then Filled(spiRead(old(spiReads)).data, 1)[0] else 0
      ensures regReads == old(regReads) + [reg]
    {
      var r := spiRead(spiReads);
      spiReads := spiReads + 1;
      regReads := regReads + [reg];
      return r.status, if r.status == Ok then Filled(r.data, 1)[0] else 0;
    }

    /** A burst read into the front of a buffer, which a failed read leaves untouched. */
    method ReadFifo(buf: array<byte>, n: byte) returns (status: Status)
      requires n <= buf.Length
      modifies `spiReads, `regReads, buf
      ensures spiReads == old(spiReads) + 1
      ensures status == spiRead(old(spiReads)).status
      ensures status != Ok ==> buf[..] == old(buf[..])
      ensures status == Ok ==> buf[..] == Overlay(Filled(spiRead(old(spiReads)).data, n), old(buf[..]))
      ensures regReads == old(regReads) + [REG_FIFO]
    {
      var r := spiRead(spiReads);
      spiReads := spiReads + 1;
      regReads := regReads + [REG_FIFO];
      if r.status == Ok {
        forall i | 0 <= i < n {
          buf[i] := if i < |r.data| then r.data[i] else 0;
        }
      }
      return r.status;
    }

    /** A successful write reaches the chip: the FIFO, its length register, or the mode register, which puts the
        FIFO's contents on the air when it is set to transmit. */
    method WriteReg(reg: byte, data: seq<byte>) returns (status: Status)
      modifies `spiWrites, `fifo, `fifoLength, `air, `spi
      ensures spiWrites == old(spiWrites) + 1 && status == spiWrite(old(spiWrites))
      ensures spi == old(spi) + [SpiWrite(reg, data)]
      ensures fifo == if status == Ok && reg == REG_FIFO then data else old(fifo)
      ensures fifoLength == if status == Ok && reg == REG_PAYLOAD_LENGTH && |data| == 1 then data[0]
                            else old(fifoLength)
      ensures air == old(air) + if status == Ok && reg == REG_MODE && data == [LORA_TX]
                                then [Filled(old(fifo), old(fifoLength))] else []
    {
      status := spiWrite(spiWrites);
      spiWrites := spiWrites + 1;
      spi := spi + [SpiWrite(reg, data)];
      if status == Ok {
        if reg == REG_FIFO {
          fifo := data;
        } else if reg == REG_PAYLOAD_LENGTH && |data| == 1 {
          fifoLength := data[0];
        } else if reg == REG_MODE && data == [LORA_TX] {
          air := air + [Filled(fifo, fifoLength)];
        }
      }
    }

    /** Platform calls take no time of their own. */
    ghost predicate NoLag() {
      forall n :: lag(n) == 0
    }

    method GetTime() returns (time: int)
      modifies `ticks, `now
      ensures now >= old(now) && time == now && (NoLag() ==> now == old(now))
    {
      now := now + lag(ticks);
      ticks := ticks + 1;
      time := now;
    }

    /** A delay takes at least as long as it was asked to. */
    method Delay(ms: nat)
      modifies `ticks, `now
      ensures now >= old(now) + 1000 * ms && (NoLag() ==> now == old(now) + 1000 * ms)
    {
      now := now + 1000 * ms + lag(ticks);
      ticks := ticks + 1;
    }

    method SwitchMode(mode: byte) returns (status: Status)
      modifies `spiWrites, `fifo, `fifoLength, `air, `spi
      ensures fifo == old(fifo) && fifoLength == old(fifoLength) && spi == old(spi) + [SetMode(mode)]
      ensures spiWrites == old(spiWrites) + 1 && status == spiWrite(old(spiWrites))
      ensures air == old(air) + if status == Ok && mode == LORA_TX then [Filled(fifo, fifoLength)] else []
    {
      status := WriteReg(REG_MODE, [mode]);
    }

    method ClearIrq() returns (status: Status)
      modifies `spiWrites, `fifo, `fifoLength, `air, `spi
      ensures fifo == old(fifo) && fifoLength == old(fifoLength) && air == old(air) && spi == old(spi) + [CLEAR_IRQ]
      ensures spiWrites == old(spiWrites) + 1 && status == spiWrite(old(spiWrites))
    {
      status := WriteReg(REG_IRQ, [0xFF]);
    }

    // ---- Polling ----

    predicate Flagged(n: nat, mask: bv8) {
      irq(n).status == Ok && irq(n).flags & mask != 0
    }

    /** Neither an error nor the awaited flag. */
    predicate Undecided(n: nat, mask: bv8) {
      irq(n).status == Ok && irq(n).flags & mask == 0
    }

    /** What polling reports that ends with the `n`-th IRQ read. */
    function Verdict(n: nat, mask: bv8): Status {
      if Flagged(n, mask) then Ok else if Undecided(n, mask) then Timeout else irq(n).status
    }

    /** A failed read ends the polling with its error, the flag with success. */
    lemma VerdictIs(n: nat, mask: bv8)
      ensures Verdict(n, mask) ==
                if irq(n).status != Ok then irq(n).status else if irq(n).flags & mask != 0 then Ok else Timeout
      ensures Undecided(n, mask) <==> irq(n).status == Ok && irq(n).flags & mask == 0
    {
    }

    /** IRQ reads `from` to `to - 1` were made, only the last of which can have decided. */
    ghost predicate Polled(from: nat, to: nat, mask: bv8) {
      from < to && forall n | from <= n < to - 1 :: Undecided(n, mask)
    }

    /** A poll begun at `start` with the `from`-th IRQ read took more than `t` milliseconds, and, when nothing but its
        delays of `d` milliseconds takes time, as many reads as fit. */
    ghost predicate TimedOut(start: int, from: nat, t: nat, d: nat)
      requires d > 0
      reads `now, `irqReads
    {
      now - start > 1000 * t && (NoLag() ==> irqReads - from == t / d + 2)
    }

    /** poll_for_irq_flag: at most floor(timeout / interval) + 2 reads, and exactly as many before a timeout when
        nothing but the delays takes time; a timeout is only reported once the time is up; success exactly at the
        first read that shows the flag. */
    method PollForIrqFlag(timeout: nat, interval: nat, mask: bv8, cleanup: bool) returns (ret: Status)
      modifies `irqReads, `ticks, `now, `spiWrites, `fifo, `fifoLength, `air, `spi, `polls
      ensures fifo == old(fifo) && fifoLength == old(fifoLength) && air == old(air)
      ensures spi == old(spi) + (if cleanup then [CLEAR_IRQ] else [])
      ensures spiWrites == old(spiWrites) + (if cleanup then 1 else 0)
      ensures Polled(old(irqReads), irqReads, mask) && ret == Verdict(irqReads - 1, mask)
      ensures var t := if timeout == 0 then 3000 else timeout;
              var d := if interval == 0 then 2 else interval;
              && irqReads - old(irqReads) <= t / d + 2
              && (Undecided(irqReads - 1, mask) ==> now - old(now) > 1000 * t)
              && (Undecided(irqReads - 1, mask) && NoLag() ==> irqReads - old(irqReads) == t / d + 2)
      ensures polls == old(polls) + [Poll(mask, LastMode(old(spi)))]
    {
      hide Device.Times, LastMode;
      polls := polls + [Poll(mask, LastMode(spi))];
      var t := if timeout == 0 then 3000 else timeout;
      var d := if interval == 0 then 2 else interval;
      ret := PollUntilDecided(t, d, mask);
      TimesBound(irqReads - old(irqReads) - 1, d, t);
      if Undecided(irqReads - 1, mask) && NoLag() {
        TimesReached(irqReads - old(irqReads) - 1, d, t);
      }
      if cleanup {
        var _ := ClearIrq();
      }
    }

    /** Its loop, with the defaults filled in. */
    method PollUntilDecided(t: nat, d: nat, mask: bv8) returns (ret: Status)
      requires d > 0
      modifies `irqReads, `ticks, `now
      ensures Polled(old(irqReads), irqReads, mask) && ret == Verdict(irqReads - 1, mask)
      ensures irqReads - old(irqReads) >= 2 ==> Times(irqReads - old(irqReads) - 2, d) <= t
      ensures Undecided(irqReads - 1, mask) ==> now - old(now) > 1000 * t
      ensures Undecided(irqReads - 1, mask) && NoLag() ==> Times(irqReads - old(irqReads) - 1, d) > t
    {
      var start := GetTime();
      ghost var k := 0;
      while true
        invariant irqReads == old(irqReads) + k
        invariant forall n | old(irqReads) <= n < irqReads :: Undecided(n, mask)
        invariant start >= old(now) && now - start >= 1000 * Times(k, d)
        invariant NoLag() ==> now - start == 1000 * Times(k, d)
        invariant k == 0 || Times(k - 1, d) <= t
        decreases t + d - Times(k, d)
      {
        var verdict := ReadOnce(mask);
        if verdict.Some? {
          return verdict.value;
        }
        var time := GetTime();
        if time - start > t * 1000 {
          return Timeout;
        }
        Delay(d);
        k := k + 1;
      }
    }

    /** poll_for_irq_flag_no_timeout, watched for at most `patience` reads: None while it is still waiting. */
    method PollNoTimeout(interval: nat, mask: bv8, cleanup: bool, patience: nat) returns (ret: Option<Status>)
      modifies `irqReads, `ticks, `now, `spiWrites, `fifo, `fifoLength, `air, `spi, `polls
      ensures air == old(air)
      ensures spi == old(spi) + if cleanup && ret.Some? then [CLEAR_IRQ] else []
      ensures ret.Some? ==>
                && Polled(old(irqReads), irqReads, mask) && !Undecided(irqReads - 1, mask)
                && ret.value == Verdict(irqReads - 1, mask)
      ensures ret == None ==>
                irqReads == old(irqReads) + patience && forall n | old(irqReads) <= n < irqReads :: Undecided(n, mask)
      ensures polls == old(polls) + [Poll(mask, LastMode(old(spi)))]
      ensures var delays := Times(irqReads - old(irqReads) - (if ret.Some? then 1 else 0), interval);
              now - old(now) >= 1000 * delays && (NoLag() ==> now - old(now) == 1000 * delays)
    {
      polls := polls + [Poll(mask, LastMode(spi))];
      ret := None;
      for k := 0 to patience
        invariant irqReads == old(irqReads) + k && air == old(air) && spi == old(spi) && ret == None
        invariant now - old(now) >= 1000 * Times(k, interval)
        invariant NoLag() ==> now - old(now) == 1000 * Times(k, interval)
        invariant polls == old(polls) + [Poll(mask, LastMode(old(spi)))]
        invariant forall n | old(irqReads) <= n < irqReads :: Undecided(n, mask)
      {
        ret := ReadOnce(mask);
        if ret.Some? {
          if cleanup {
            var _ := ClearIrq();
          }
          return;
        }
        Delay(interval);
      }
    }

    /** One IRQ read and what it settles. */
    method ReadOnce(mask: bv8) returns (verdict: Option<Status>)
      modifies `irqReads
      ensures irqReads == old(irqReads) + 1
      ensures verdict == None <==> Undecided(old(irqReads), mask)
      ensures verdict == Some(Ok) <==> Flagged(old(irqReads), mask)
      ensures verdict.Some? && verdict != Some(Ok) ==> verdict == Some(irq(old(irqReads)).status)
    {
      var status, flags := ReadIrq();
      if status != Ok {
        return Some(status);
      }
      if flags & mask != 0 {
        return Some(Ok);
      }
      return None;
    }

    /** `k` delays of `d` milliseconds. */
    static ghost function Times(k: nat, d: nat): nat {
      if k == 0 then 0 else Times(k - 1, d) + d
    }

    static lemma {:induction false} TimesIsProduct(k: nat, d: nat)
      ensures Times(k, d) == k * d
    {
      if k > 0 {
        TimesIsProduct(k - 1, d);
        assert k * d == (k - 1) * d + d;
      }
    }

    static lemma CancelFactor(m: nat, n: nat, d: nat)
      requires m * d < n * d
      ensures m < n
    {
    }

    static lemma RoundingDown(t: nat, d: nat)
      requires d > 0
      ensures t < (t / d + 1) * d
    {
      assert t == t / d * d + t % d;
    }

    static lemma TimesBound(k: nat, d: nat, t: nat)
      requires d > 0 && (k == 0 || Times(k - 1, d) <= t)
      ensures k + 1 <= t / d + 2
    {
      if k > 0 {
        TimesIsProduct(k - 1, d);
        RoundingDown(t, d);
        CancelFactor(k - 1, t / d + 1, d);
      }
    }

    static lemma TimesReached(k: nat, d: nat, t: nat)
      requires d > 0 && Times(k, d) > t && (k == 0 || Times(k - 1, d) <= t)
      ensures k + 1 == t / d + 2
    {
      TimesBound(k, d, t);
      TimesIsProduct(k, d);
      assert t / d * d <= t;
      CancelFactor(t / d, k, d);
    }

    // ---- Sending ----

    /** The byte the `n`-th register read stores. */
    ghost function ReadByte(n: nat): byte {
      if spiRead(n).status == Ok then Filled(spiRead(n).data, 1)[0] else 0
    }

    /** The writes since `w0` and `before` are the first ones of `script`. */
    ghost predicate Wrote(before: seq<SpiWrite>, w0: nat, script: seq<SpiWrite>)
      reads `spi, `spiWrites
    {
      w0 < spiWrites <= w0 + |script| && spi == before + script[..spiWrites - w0]
    }

    /** What preparing a transmission comes to, when its first write is the `w`-th and its one read the `r`-th. */
    ghost function LoadResult(w: nat, r: nat): Status {
      Then(PointResult(w, r), FillResult(w + 2))
    }

    ghost function PointResult(w: nat, r: nat): Status {
      Then(spiWrite(w), Then(spiRead(r).status, spiWrite(w + 1)))
    }

    ghost function FillResult(w: nat): Status {
      Then(spiWrite(w), Then(spiWrite(w + 1), spiWrite(w + 2)))
    }

    /** The transmission started by the `w`-th write, its polling ended by the `n`-th IRQ read. The write that
        clears the flags after the polling may fail unnoticed. */
    ghost function FireResult(w: nat, n: nat): Status {
      Then(spiWrite(w), Then(Verdict(n, TX_DONE), Then(spiWrite(w + 2), spiWrite(w + 3))))
    }

    /** sx1278_send_payload: succeeds exactly when every write and the read does and polling shows TxDone, and
        otherwise returns what the first of them to fail returned. The register writes follow the script and stop
        there. The frame goes on the air exactly when the switch to transmit mode succeeds, so a failure may come
        before or after. */
    method SendPayload(buf: array<byte>, len: byte, rxAfterTx: bool) returns (ret: Status, ghost aired: bool)
      requires len <= buf.Length
      modifies `irqReads, `spiReads, `ticks, `now, `spiWrites, `fifo, `fifoLength, `air, `spi, `regReads, `polls
      ensures air == old(air) + if aired then [buf[..len]] else []
      ensures aired <==> LoadResult(old(spiWrites), old(spiReads)) == Ok && spiWrite(old(spiWrites) + 5) == Ok
      ensures if aired then Polled(old(irqReads), irqReads, TX_DONE)
              else irqReads == old(irqReads)
      ensures ret == Then(LoadResult(old(spiWrites), old(spiReads)),
                          if aired then FireResult(old(spiWrites) + 5, irqReads - 1) else spiWrite(old(spiWrites) + 5))
      ensures Wrote(old(spi), old(spiWrites),
                    LoadScript(ReadByte(old(spiReads)), buf[..len]) + TransmitScript(rxAfterTx))
      ensures forall n | old(spiWrites) <= n < spiWrites - 1 && n != old(spiWrites) + 6 :: spiWrite(n) == Ok
      ensures ret == Ok ==>
                && spiWrites == old(spiWrites) + 9 && spiReads == old(spiReads) + 1
                && spi == old(spi) + LoadScript(ReadByte(old(spiReads)), buf[..len]) + TransmitScript(rxAfterTx)
      ensures regReads == old(regReads) + if spiWrite(old(spiWrites)) == Ok then [0x0E] else []
      ensures polls == old(polls) + if aired then [Poll(0x08, 0x83)] else []
      ensures irqReads <= old(irqReads) + 1002
      ensures aired && Undecided(irqReads - 1, TX_DONE) ==> TimedOut(old(now), old(irqReads), 3000, 3)
    {
      hide Filled, LoadScript, LoadResult, FireResult, Verdict, Polled, TransmitScript;
      aired := false;
      ghost var before, w := spi, spiWrites;
      ghost var load, rest := LoadScript(ReadByte(spiReads), buf[..len]), TransmitScript(rxAfterTx);
      ret := LoadFifo(buf, len);
      ScriptParts(before, load, rest, spiWrites - w);
      if ret != Ok {
        return;
      }
      ghost var w1 := spiWrites;
      ret, aired := Fire(rxAfterTx);
      ScriptParts(before, load, rest, spiWrites - w1);
      WholeScript(before, ReadByte(old(spiReads)), buf[..len], rxAfterTx);
    }

    /** The part of it before the transmission. */
    method LoadFifo(buf: array<byte>, len: byte) returns (ret: Status)
      requires len <= buf.Length
      modifies `spiReads, `spiWrites, `fifo, `fifoLength, `air, `spi, `regReads
      ensures air == old(air)
      ensures ret == LoadResult(old(spiWrites), old(spiReads))
      ensures Wrote(old(spi), old(spiWrites), LoadScript(ReadByte(old(spiReads)), buf[..len]))
      ensures forall n | old(spiWrites) <= n < spiWrites - 1 :: spiWrite(n) == Ok
      ensures ret == Ok ==>
                && spiWrites == old(spiWrites) + 5 && spiReads == old(spiReads) + 1
                && spi == old(spi) + LoadScript(ReadByte(old(spiReads)), buf[..len])
                && spiWrite(spiWrites - 1) == Ok && Filled(fifo, fifoLength) == buf[..len]
      ensures regReads == old(regReads) + if spiWrite(old(spiWrites)) == Ok then [0x0E] else []
    {
      ghost var before, w := spi, spiWrites;
      ghost var point, fill := PointScript(ReadByte(spiReads)), FillScript(buf[..len]);
      ret := PointFifo();
      ScriptParts(before, point, fill, spiWrites - w);
      if ret != Ok {
        return;
      }
      ghost var w1 := spiWrites;
      ret := FillFifo(buf, len);
      ScriptParts(before, point, fill, spiWrites - w1);
      assert fill[..3] == fill && (point + fill)[..5] == point + fill;
    }

    /** Standby mode, and the FIFO pointer to where the transmit FIFO begins. */
    method PointFifo() returns (ret: Status)
      modifies `spiReads, `spiWrites, `fifo, `fifoLength, `air, `spi, `regReads
      ensures air == old(air)
      ensures ret == PointResult(old(spiWrites), old(spiReads))
      ensures Wrote(old(spi), old(spiWrites), PointScript(ReadByte(old(spiReads))))
      ensures forall n | old(spiWrites) <= n < spiWrites - 1 :: spiWrite(n) == Ok
      ensures ret == Ok ==>
                && spiWrites == old(spiWrites) + 2 && spiReads == old(spiReads) + 1
                && spi == old(spi) + PointScript(ReadByte(old(spiReads))) && spiWrite(spiWrites - 1) == Ok
      ensures regReads == old(regReads) + if spiWrite(old(spiWrites)) == Ok then [0x0E] else []
    {
      ghost var script := PointScript(ReadByte(spiReads));
      ret := SwitchMode(LORA_STDBY);
      assert script[..1] == [SetMode(LORA_STDBY)];
      if ret != Ok {
        return;
      }
      var base: byte;
      ret, base := ReadReg(REG_FIFO_TX_BASE);
      if ret != Ok {
        return;
      }
      ret := WriteReg(REG_FIFO_ADDR, [base]);
      ScriptStep(old(spi), script, 1);
      assert script[..2] == script;
    }

    /** The length and the bytes of the frame, and the flags cleared. */
    method FillFifo(buf: array<byte>, len: byte) returns (ret: Status)
      requires len <= buf.Length
      modifies `spiWrites, `fifo, `fifoLength, `air, `spi
      ensures air == old(air)
      ensures ret == FillResult(old(spiWrites))
      ensures Wrote(old(spi), old(spiWrites), FillScript(buf[..len]))
      ensures forall n | old(spiWrites) <= n < spiWrites - 1 :: spiWrite(n) == Ok
      ensures ret == Ok ==>
                && spiWrites == old(spiWrites) + 3 && spi == old(spi) + FillScript(buf[..len])
                && spiWrite(spiWrites - 1) == Ok && Filled(fifo, fifoLength) == buf[..len]
    {
      ghost var script := FillScript(buf[..len]);
      ret := WriteReg(REG_PAYLOAD_LENGTH, [len]);
      assert script[..1] == [SpiWrite(REG_PAYLOAD_LENGTH, [len])];
      if ret != Ok {
        return;
      }
      ret := WriteReg(REG_FIFO, buf[..len]);
      ScriptStep(old(spi), script, 1);
      if ret != Ok {
        return;
      }
      ret := ClearIrq();
      ScriptStep(old(spi), script, 2);
      assert script[..3] == script;
    }

    /** The transmission. */
    method Fire(rxAfterTx: bool) returns (ret: Status, ghost aired: bool)
      modifies `irqReads, `ticks, `now, `spiWrites, `fifo, `fifoLength, `air, `spi, `polls
      ensures air == old(air) + if aired then [Filled(old(fifo), old(fifoLength))] else []
      ensures aired <==> spiWrite(old(spiWrites)) == Ok
      ensures if aired then Polled(old(irqReads), irqReads, TX_DONE)
              else irqReads == old(irqReads)
      ensures ret == if aired then FireResult(old(spiWrites), irqReads - 1) else spiWrite(old(spiWrites))
      ensures Wrote(old(spi), old(spiWrites), TransmitScript(rxAfterTx))
      ensures forall n | old(spiWrites) <= n < spiWrites - 1 && n != old(spiWrites) + 1 :: spiWrite(n) == Ok
      ensures ret == Ok ==> spiWrites == old(spiWrites) + 4
      ensures polls == old(polls) + if aired then [Poll(0x08, 0x83)] else []
      ensures irqReads <= old(irqReads) + 1002
      ensures aired && Undecided(irqReads - 1, TX_DONE) ==> TimedOut(old(now), old(irqReads), 3000, 3)
    {
      hide Filled, Verdict;
      ghost var script := TransmitScript(rxAfterTx);
      aired := false;
      ret := SwitchMode(LORA_TX);
      LastModeAfter(old(spi), LORA_TX);
      assert script[..1] == [SetMode(LORA_TX)];
      if ret != Ok {
        return;
      }
      aired := true;
      ret := PollForIrqFlag(3000, 3, TX_DONE, true);
      ScriptStep(old(spi), script, 1);
      if ret != Ok {
        return;
      }
      ret := ClearIrq();
      ScriptStep(old(spi), script, 2);
      if ret != Ok {
        return;
      }
      ret := SwitchMode(if rxAfterTx then LORA_RX_CONTINUOUS else LORA_SLEEP);
      ScriptStep(old(spi), script, 3);
    }

    /** What sending comes to, with `n` IRQ reads made in the end. */
    ghost function SendResult(w: nat, r: nat, n: nat): Status {
      Then(LoadResult(w, r), if n == 0 then spiWrite(w + 5) else FireResult(w + 5, n - 1))
    }

    /** Sending succeeds exactly when all these calls do: six writes and a read before the transmission, the poll that
        shows TxDone (0x08), two writes after the one that clears the flags; and without TxDone it times out. */
    lemma SendingSucceedsIff(w: nat, r: nat, n: nat)
      ensures SendResult(w, r, n) == Ok <==>
                && AllWritten(w, w + 6) && spiRead(r).status == Ok
                && (n > 0 ==> irq(n - 1).status == Ok && irq(n - 1).flags & 0x08 != 0)
                && (n > 0 ==> spiWrite(w + 7) == Ok && spiWrite(w + 8) == Ok)
      ensures AllWritten(w, w + 6) && spiRead(r).status == Ok && n > 0 ==>
                && (irq(n - 1).status != Ok ==> SendResult(w, r, n) == irq(n - 1).status)
                && (irq(n - 1).status == Ok && irq(n - 1).flags & 0x08 == 0 ==> SendResult(w, r, n) == Timeout)
      ensures forall k | w <= k < w + 6 && AllWritten(w, k) && (k == w || spiRead(r).status == Ok) ::
                spiWrite(k) != Ok ==> SendResult(w, r, n) == spiWrite(k)
    {
    }

    ghost predicate AllWritten(from: nat, to: nat) {
      forall k | from <= k < to :: spiWrite(k) == Ok
    }

    /** sx_1278_send_packet: whatever earlier frames left in the transmit buffer, what goes out is the frame of
        this packet and nothing else; a frame too long for the buffer is refused and nothing happens. */
    method SendPacket(p: PacketCell, rxAfterTx: bool) returns (ret: Status, ghost aired: bool)
      requires Valid() && p.Valid() && p.payload != txBuffer && p.payload != rxBuffer
      modifies this, txBuffer
      ensures Valid() && p.Value() == old(p.Value())
      ensures trace == old(trace) + [Transmit(Encode(p.Value()), aired, ret)]
      ensures air == old(air) + if aired then [Encode(p.Value())] else []
      ensures var fits := |Encode(p.Value())| <= 255;
              && (aired <==>
                    fits && LoadResult(old(spiWrites), old(spiReads)) == Ok && spiWrite(old(spiWrites) + 5) == Ok)
              && ret == if fits then SendResult(old(spiWrites), old(spiReads), irqReads) else InvalidState
      ensures if aired then Polled(old(irqReads), irqReads, TX_DONE)
              else irqReads == old(irqReads)
      ensures ret == Ok ==> aired && spiReads == old(spiReads) + 1
      ensures old(spi) <= spi
      ensures ret == Ok ==>
                spi == old(spi) + LoadScript(ReadByte(old(spiReads)), Encode(p.Value())) + TransmitScript(rxAfterTx)
      ensures polls == old(polls) + if aired then [Poll(0x08, 0x83)] else []
      ensures irqReads <= old(irqReads) + 1002
      ensures aired && Undecided(irqReads - 1, TX_DONE) ==> TimedOut(old(now), old(irqReads), 3000, 3)
    {
      hide LoadResult, Verdict, LoadScript, TransmitScript, Sane, Zeros;
      var size := ToBytestream(txBuffer, p);
      if size == -1 {
        trace := trace + [Transmit(Encode(p.Value()), false, InvalidState)];
        return InvalidState, false;
      }
      ret, aired := SendPayload(txBuffer, size, rxAfterTx);
      trace := trace + [Transmit(Encode(p.Value()), aired, ret)];
    }

    // ---- Receiving ----

    /** Taking a frame out of the FIFO, from its `w`-th write and `r`-th read on. A failed read of the byte count is
        not noticed and counts as zero bytes. */
    ghost function FifoResult(w: nat, r: nat): Status {
      Then(spiRead(r + 1).status, Then(spiWrite(w), spiRead(r + 2).status))
    }

    /** What reading the last payload comes to, from its `w`-th write, `n`-th IRQ read and `r`-th other read on. */
    ghost function ReadResult(w: nat, n: nat, r: nat): Status {
      Then(spiWrite(w), Then(irq(n).status, Then(FlagResult(irq(n).flags), FifoResult(w + 1, r))))
    }

    /** The frame so received; no frame after a failure. */
    ghost function FrameRead(w: nat, n: nat, r: nat): (frame: seq<byte>)
      ensures |frame| <= BUFFER_SIZE
    {
      if ReadResult(w, n, r) == Ok then Filled(spiRead(r + 2).data, ReadByte(r)) else []
    }

    /** The register writes made on the way. */
    ghost function ReadScript(w: nat, n: nat, r: nat): seq<SpiWrite> {
      if Then(spiWrite(w), irq(n).status) != Ok then [SetMode(LORA_STDBY)]
      else if Then(FlagResult(irq(n).flags), spiRead(r + 1).status) != Ok then [SetMode(LORA_STDBY), CLEAR_IRQ]
      else [SetMode(LORA_STDBY), SpiWrite(REG_FIFO_ADDR, [ReadByte(r + 1)]), CLEAR_IRQ]
    }

    /** The packet that comes of it: the frame over zeros, parsed; so the all-zero packet after any failure. */
    ghost function Heard(w: nat, n: nat, r: nat): (p: Packet)
      requires Sane()
      ensures Parsable(Overlay(FrameRead(w, n, r), Zeros(BUFFER_SIZE))) && p == Received(FrameRead(w, n, r))
      ensures ReadResult(w, n, r) != Ok ==> p == ZERO_PACKET
    {
      SaneFramesParse(w, n, r);
      if ReadResult(w, n, r) != Ok then
        FailuresParseToZeros(w, n, r);
        ZERO_PACKET
      else
        Received(FrameRead(w, n, r))
    }

    /** Whatever the platform delivered, the parser stays within the buffer. */
    lemma SaneFramesParse(w: nat, n: nat, r: nat)
      requires Sane()
      ensures Parsable(Overlay(FrameRead(w, n, r), Zeros(BUFFER_SIZE)))
    {
      var frame := FrameRead(w, n, r);
      var raw := Overlay(frame, Zeros(BUFFER_SIZE));
      if |frame| > 6 {
        assert raw[6] == frame[6];
      } else {
        assert raw[6] == 0;
      }
    }

    lemma FailuresParseToZeros(w: nat, n: nat, r: nat)
      requires ReadResult(w, n, r) != Ok
      ensures Parsable(Overlay(FrameRead(w, n, r), Zeros(BUFFER_SIZE))) && Received(FrameRead(w, n, r)) == ZERO_PACKET
    {
      hide Overlay, Received, Zeros;
      ReceivedNothing();
      assert FrameRead(w, n, r) == [];
    }

    /** The switch to standby mode and the reading of the flags succeed. */
    ghost predicate FlagsRead(w: nat, n: nat) {
      spiWrite(w) == Ok && irq(n).status == Ok
    }

    /** What the flags mean, bit by bit: without RxDone (0x40) or with a CRC error (0x20) there is no reception,
        whatever the FIFO holds, and the packet that comes of it is all zeros. */
    lemma FlagsDecide(w: nat, n: nat, r: nat)
      ensures ReadResult(w, n, r) == Ok <==>
                && FlagsRead(w, n) && irq(n).flags & 0x40 != 0 && irq(n).flags & 0x20 == 0
                && spiRead(r + 1).status == Ok && spiWrite(w + 1) == Ok && spiRead(r + 2).status == Ok
      ensures FlagsRead(w, n) && irq(n).flags & 0x40 == 0 ==> ReadResult(w, n, r) == InvalidState
      ensures (FlagsRead(w, n) && irq(n).flags & 0x40 != 0 && irq(n).flags & 0x20 != 0) ==>
                ReadResult(w, n, r) == InvalidCrc
      ensures ReadResult(w, n, r) != Ok ==> FrameRead(w, n, r) == []
    {
    }

    /** And what is written: standby; with the flags read, the FIFO pointer if there is a frame to read and the read of
        its place succeeds, and the flags cleared. */
    lemma ReadScriptInNumbers(w: nat, n: nat, r: nat)
      ensures ReadScript(w, n, r) ==
                if !FlagsRead(w, n) then [SpiWrite(0x01, [0x81])]
                else if irq(n).flags & 0x40 != 0 && irq(n).flags & 0x20 == 0 && spiRead(r + 1).status == Ok
                then [SpiWrite(0x01, [0x81]), SpiWrite(0x0D, [ReadByte(r + 1)]), SpiWrite(0x12, [0xFF])]
                else [SpiWrite(0x01, [0x81]), SpiWrite(0x12, [0xFF])]
    {
    }

    /** sx1278_read_last_payload into the receive buffer: succeeds exactly when RxDone shows without a CRC error and
        every other call but the read of the byte count does; otherwise the status of the first of these that fails,
        and the buffer is as it was. */
    method ReadLastPayload() returns (ret: Status)
      requires rxBuffer.Length == BUFFER_SIZE
      modifies `irqReads, `spiReads, `spiWrites, `fifo, `fifoLength, `air, `spi, `regReads, rxBuffer
      ensures air == old(air)
      ensures ret == ReadResult(old(spiWrites), old(irqReads), old(spiReads))
      ensures rxBuffer[..] == Overlay(FrameRead(old(spiWrites), old(irqReads), old(spiReads)), old(rxBuffer[..]))
      ensures irqReads == old(irqReads) + if spiWrite(old(spiWrites)) == Ok then 1 else 0
      ensures spi == old(spi) + ReadScript(old(spiWrites), old(irqReads), old(spiReads))
      ensures ret == Ok ==> spiReads == old(spiReads) + 3 && regReads == old(regReads) + [0x13, 0x10, 0x00]
      ensures ret == Ok <==>
                && FlagsRead(old(spiWrites), old(irqReads))
                && irq(old(irqReads)).flags & 0x40 != 0 && irq(old(irqReads)).flags & 0x20 == 0
                && spiRead(old(spiReads) + 1).status == Ok && spiWrite(old(spiWrites) + 1) == Ok
                && spiRead(old(spiReads) + 2).status == Ok
      ensures FlagsRead(old(spiWrites), old(irqReads)) && irq(old(irqReads)).flags & 0x40 == 0 ==> ret == InvalidState
      ensures (FlagsRead(old(spiWrites), old(irqReads))
               && irq(old(irqReads)).flags & 0x40 != 0 && irq(old(irqReads)).flags & 0x20 != 0) ==> ret == InvalidCrc
      ensures ret != Ok ==> rxBuffer[..] == old(rxBuffer[..])
    {
      hide Filled, FlagResult, FrameRead, Overlay, ReadResult, ReadScript, Zeros;
      FlagsDecide(spiWrites, irqReads, spiReads);
      NothingOverlaid(rxBuffer[..]);
      ret := ReadPayload();
    }

    lemma NothingOverlaid(buffer: seq<byte>)
      ensures Overlay([], buffer) == buffer
    {
    }

    /** Its body. */
    method ReadPayload() returns (ret: Status)
      requires rxBuffer.Length == BUFFER_SIZE
      modifies `irqReads, `spiReads, `spiWrites, `fifo, `fifoLength, `air, `spi, `regReads, rxBuffer
      ensures air == old(air)
      ensures ret == ReadResult(old(spiWrites), old(irqReads), old(spiReads))
      ensures rxBuffer[..] == Overlay(FrameRead(old(spiWrites), old(irqReads), old(spiReads)), old(rxBuffer[..]))
      ensures irqReads == old(irqReads) + if spiWrite(old(spiWrites)) == Ok then 1 else 0
      ensures spi == old(spi) + ReadScript(old(spiWrites), old(irqReads), old(spiReads))
      ensures ret == Ok ==> spiReads == old(spiReads) + 3 && regReads == old(regReads) + [0x13, 0x10, 0x00]
    {
      hide Filled, Zeros, FlagResult, FifoResult;
      ret := SwitchMode(LORA_STDBY);
      if ret != Ok {
        return;
      }
      var flags: bv8;
      ret, flags := ReadIrq();
      if ret != Ok {
        return;
      }
      ret := ReadFlagged(flags);
    }

    /** The part of it after the flags have been read. */
    method ReadFlagged(flags: bv8) returns (ret: Status)
      requires rxBuffer.Length == BUFFER_SIZE
      modifies `spiReads, `spiWrites, `fifo, `fifoLength, `air, `spi, `regReads, rxBuffer
      ensures air == old(air)
      ensures ret == Then(FlagResult(flags), FifoResult(old(spiWrites), old(spiReads)))
      ensures ret != Ok ==> rxBuffer[..] == old(rxBuffer[..])
      ensures ret == Ok ==>
                && rxBuffer[..] == Overlay(Filled(spiRead(old(spiReads) + 2).data, ReadByte(old(spiReads))),
                                           old(rxBuffer[..]))
                && spiReads == old(spiReads) + 3 && regReads == old(regReads) + [0x13, 0x10, 0x00]
      ensures spi == old(spi) + if Then(FlagResult(flags), spiRead(old(spiReads) + 1).status) == Ok
                                then [SpiWrite(REG_FIFO_ADDR, [ReadByte(old(spiReads) + 1)]), CLEAR_IRQ]
                                else [CLEAR_IRQ]
    {
      hide Filled, FifoResult, Overlay;
      if flags & RX_DONE == 0 {
        var _ := ClearIrq();
        return InvalidState;
      }
      if flags & CRC_ERROR != 0 {
        var _ := ClearIrq();
        return InvalidCrc;
      }
      ret := ReadFromFifo();
      var _ := ClearIrq();
    }

    /** The part of it that takes the frame out of the radio's FIFO. */
    method ReadFromFifo() returns (ret: Status)
      requires rxBuffer.Length == BUFFER_SIZE
      modifies `spiReads, `spiWrites, `fifo, `fifoLength, `air, `spi, `regReads, rxBuffer
      ensures air == old(air)
      ensures ret == FifoResult(old(spiWrites), old(spiReads))
      ensures ret != Ok ==> rxBuffer[..] == old(rxBuffer[..])
      ensures ret == Ok ==>
                && rxBuffer[..] == Overlay(Filled(spiRead(old(spiReads) + 2).data, ReadByte(old(spiReads))),
                                           old(rxBuffer[..]))
                && spiReads == old(spiReads) + 3 && regReads == old(regReads) + [0x13, 0x10, 0x00]
      ensures spi == old(spi) + if spiRead(old(spiReads) + 1).status == Ok
                                then [SpiWrite(REG_FIFO_ADDR, [ReadByte(old(spiReads) + 1)])] else []
    {
      var n: byte;
      ret, n := ReadReg(REG_RX_BYTES);
      var addr: byte;
      ret, addr := ReadReg(REG_FIFO_RX_CURRENT);
      if ret != Ok {
        return;
      }
      ret := WriteReg(REG_FIFO_ADDR, [addr]);
      if ret != Ok {
        return;
      }
      ret := ReadFifo(rxBuffer, n);
    }

    /** read_last_packet: always reports success, whatever came of the reading; the buffer is scrubbed again. */
    method ReadLastPacket(p: PacketCell) returns (ret: Status)
      requires Valid()
      modifies this, rxBuffer, p
      ensures Valid() && p.Valid() && fresh(p.payload)
      ensures ret == Ok
      ensures p.Value() == Heard(old(spiWrites), old(irqReads), old(spiReads))
      ensures trace == old(trace) + [Listen(Got(p.Value()))]
      ensures air == old(air) && now == old(now) && polls == old(polls)
      ensures spi == old(spi) + ReadScript(old(spiWrites), old(irqReads), old(spiReads)) + [SpiWrite(0x12, [0xFF])]
      ensures irqReads == old(irqReads) + if spiWrite(old(spiWrites)) == Ok then 1 else 0
      ensures (FlagsRead(old(spiWrites), old(irqReads))
               && (irq(old(irqReads)).flags & 0x40 == 0 || irq(old(irqReads)).flags & 0x20 != 0)) ==>
                p.Value() == Packet(0, 0, 0, 0, [])
      ensures ReadResult(old(spiWrites), old(irqReads), old(spiReads)) == Ok ==> spiReads == old(spiReads) + 3
    {
      ghost var frame := FrameRead(spiWrites, irqReads, spiReads);
      hide Overlay, Zeros, FrameRead, ReadResult, ReadScript, Received;
      ghost var packet := Heard(spiWrites, irqReads, spiReads);
      FlagsDecide(spiWrites, irqReads, spiReads);
      var _ := ReadLastPayload();
      ParseAndScrub(p, frame);
      FinishReading(packet);
      ret := Ok;
    }

    method FinishReading(ghost p: Packet)
      modifies `spiWrites, `fifo, `fifoLength, `air, `spi, `trace
      ensures air == old(air) && spi == old(spi) + [CLEAR_IRQ] && trace == old(trace) + [Listen(Got(p))]
    {
      var _ := ClearIrq();
      trace := trace + [Listen(Got(p))];
    }

    /** The packet out of the buffer, and the buffer back to zeros. */
    method ParseAndScrub(p: PacketCell, ghost frame: seq<byte>)
      requires |frame| <= BUFFER_SIZE && Parsable(Overlay(frame, Zeros(BUFFER_SIZE)))
      requires rxBuffer[..] == Overlay(frame, Zeros(BUFFER_SIZE))
      modifies rxBuffer, p
      ensures rxBuffer[..] == Zeros(BUFFER_SIZE)
      ensures p.Valid() && fresh(p.payload) && p.Value() == Received(frame)
    {
      var _ := Parse(rxBuffer, p);
      Scrub();
    }

    /** memset of the receive buffer */
    method Scrub()
      requires rxBuffer.Length == BUFFER_SIZE
      modifies rxBuffer
      ensures rxBuffer[..] == Zeros(BUFFER_SIZE)
    {
      forall i | 0 <= i < rxBuffer.Length {
        rxBuffer[i] := 0;
      }
    }

    /** What the wait comes to, with `n` IRQ reads made when it ends. */
    ghost function WaitResult(w: nat, n: nat): Status {
      Then(spiWrite(w), Then(if n == 0 then Ok else Verdict(n - 1, RX_DONE), spiWrite(w + 1)))
    }

    /** The writes of the wait: single reception, and standby if RxDone shows. */
    ghost function WaitScript(w: nat, n: nat): seq<SpiWrite> {
      if spiWrite(w) == Ok && n > 0 && Flagged(n - 1, RX_DONE) then [SpiWrite(0x01, [0x86]), SpiWrite(0x01, [0x81])]
      else [SpiWrite(0x01, [0x86])]
    }

    /** The writes of wait, reading and cleanup. */
    ghost function PollScript(w: nat, n: nat, r: nat): seq<SpiWrite> {
      WaitScript(w, n)
      + (if WaitResult(w, n) == Ok then ReadScript(w + 2, n, r) + [SpiWrite(0x12, [0xFF])] else [])
      + [SpiWrite(0x12, [0xFF]), SpiWrite(0x01, [0x81])]
    }

    /** The wait succeeds exactly when both mode switches do and RxDone (0x40) shows, and times out without it. */
    lemma WaitSucceedsIff(w: nat, n: nat)
      requires n > 0
      ensures WaitResult(w, n) == Ok <==>
                && spiWrite(w) == Ok && spiWrite(w + 1) == Ok
                && irq(n - 1).status == Ok && irq(n - 1).flags & 0x40 != 0
      ensures spiWrite(w) == Ok && irq(n - 1).status == Ok && irq(n - 1).flags & 0x40 == 0 ==>
                WaitResult(w, n) == Timeout
      ensures spiWrite(w) == Ok && irq(n - 1).status != Ok ==> WaitResult(w, n) == irq(n - 1).status
      ensures spiWrite(w) != Ok ==> WaitResult(w, n) == spiWrite(w)
    {
    }

    /** sx1278_poll_and_read_packet: the status of a wait that failed, or, after RxDone showed, the packet that
        reading the FIFO at once gives. `polled`: IRQ reads made when the wait ended. */
    method PollAndReadPacket(rx: PacketCell, timeout: nat) returns (ret: Status, ghost polled: nat)
      requires Valid() && rx.Valid()
      modifies this, rxBuffer, rx
      ensures Valid() && rx.Valid() && (rx.payload == old(rx.payload) || fresh(rx.payload))
      ensures trace == old(trace) + [Listen(if ret == Ok then Got(rx.Value()) else Silence(ret))]
      ensures ret == WaitResult(old(spiWrites), polled)
      ensures if spiWrite(old(spiWrites)) == Ok then Polled(old(irqReads), polled, RX_DONE)
              else polled == old(irqReads)
      ensures ret != Ok ==> polled == irqReads
      ensures air == old(air) && irqReads - old(irqReads) <= (if timeout == 0 then 3000 else timeout) + 3
      ensures polls == old(polls) + if spiWrite(old(spiWrites)) == Ok then [Poll(0x40, 0x86)] else []
      ensures spi == old(spi) + PollScript(old(spiWrites), polled, old(spiReads))
      ensures spiWrite(old(spiWrites)) == Ok && polled > 0 && Undecided(polled - 1, RX_DONE) ==>
                && ret == Timeout && polled == irqReads
                && TimedOut(old(now), old(irqReads), if timeout == 0 then 3000 else timeout, 1)
      ensures ret == Ok ==>
                && rx.Value() == Heard(old(spiWrites) + 2, polled, old(spiReads))
                && (ReadResult(old(spiWrites) + 2, polled, old(spiReads)) == Ok ==> spiReads == old(spiReads) + 3)
    {
      hide FlagResult, FrameRead, Heard, Overlay, Polled, PollScript, ReadResult, ReadScript, Sane, TimedOut,
           Verdict, WaitResult, WaitScript, Zeros;
      ghost var before, w, r := spi, spiWrites, spiReads;
      ret := WaitForPacket(timeout);
      polled := irqReads;
      PollScriptInParts(before, w, polled, r);
      if ret == Ok {
        ret := ReadLastPacket(rx);
      } else {
        trace := trace + [Listen(Silence(ret))];
      }
      BackToStandby();
    }

    lemma PollScriptInParts(before: seq<SpiWrite>, w: nat, n: nat, r: nat)
      ensures before + PollScript(w, n, r)
                == if WaitResult(w, n) == Ok
                   then before + WaitScript(w, n) + ReadScript(w + 2, n, r) + [SpiWrite(0x12, [0xFF])]
                        + [SpiWrite(0x12, [0xFF]), SpiWrite(0x01, [0x81])]
                   else before + WaitScript(w, n) + [SpiWrite(0x12, [0xFF]), SpiWrite(0x01, [0x81])]
    {
      hide ReadScript, WaitResult, WaitScript;
      var wait, read, clear := WaitScript(w, n), ReadScript(w + 2, n, r), [SpiWrite(0x12, [0xFF])];
      var tail := [SpiWrite(0x12, [0xFF]), SpiWrite(0x01, [0x81])];
      if WaitResult(w, n) == Ok {
        Associative(before, wait + (read + clear), tail);
        Associative(before, wait, read + clear);
        Associative(before + wait, read, clear);
      } else {
        assert wait + [] == wait;
        Associative(before, wait, tail);
      }
    }

    /** The cleanup after it; errors go unnoticed. */
    method BackToStandby()
      modifies `spiWrites, `fifo, `fifoLength, `air, `spi
      ensures air == old(air) && spi == old(spi) + [SpiWrite(0x12, [0xFF]), SpiWrite(0x01, [0x81])]
    {
      var _ := ClearIrq();
      var _ := SwitchMode(LORA_STDBY);
      Associative(old(spi), [CLEAR_IRQ], [SetMode(LORA_STDBY)]);
    }

    /** The part of it before the packet is read. */
    method WaitForPacket(timeout: nat) returns (ret: Status)
      modifies `irqReads, `ticks, `now, `spiWrites, `fifo, `fifoLength, `air, `spi, `polls
      ensures air == old(air) && irqReads - old(irqReads) <= (if timeout == 0 then 3000 else timeout) + 2
      ensures ret == WaitResult(old(spiWrites), irqReads)
      ensures if spiWrite(old(spiWrites)) == Ok
              then Polled(old(irqReads), irqReads, RX_DONE)
              else irqReads == old(irqReads)
      ensures spi == old(spi) + WaitScript(old(spiWrites), irqReads)
      ensures ret == Ok ==> spiWrites == old(spiWrites) + 2
      ensures polls == old(polls) + if spiWrite(old(spiWrites)) == Ok then [Poll(0x40, 0x86)] else []
      ensures spiWrite(old(spiWrites)) == Ok && Undecided(irqReads - 1, RX_DONE) ==>
                ret == Timeout && TimedOut(old(now), old(irqReads), if timeout == 0 then 3000 else timeout, 1)
    {
      ret := SwitchMode(LORA_RX_SINGLE);
      LastModeAfter(old(spi), LORA_RX_SINGLE);
      if ret != Ok {
        return;
      }
      ret := PollForIrqFlag(timeout, 1, RX_DONE, false);
      if ret != Ok {
        return;
      }
      ret := SwitchMode(LORA_STDBY);
      Associative(old(spi), [SetMode(LORA_RX_SINGLE)], [SetMode(LORA_STDBY)]);
    }

    // ---- A platform that cooperates ----

    /** No call fails, and every IRQ read shows a finished transmission and a good reception. */
    ghost predicate Cooperates() {
      && (forall n :: spiWrite(n) == Ok)
      && (forall n :: spiRead(n).status == Ok)
      && (forall n :: irq(n) == IrqReply(Ok, TX_DONE | RX_DONE))
    }

    /** Then every transmission, every wait and every reading succeeds. */
    lemma CooperationSucceeds(w: nat, n: nat, r: nat)
      requires Cooperates()
      ensures Flagged(n, RX_DONE)
      ensures LoadResult(w, r) == Ok && SendResult(w, r, n) == Ok && WaitResult(w, n) == Ok && ReadResult(w, n, r) == Ok
    {
      assert (TX_DONE | RX_DONE) & TX_DONE != 0 && (TX_DONE | RX_DONE) & RX_DONE != 0;
      assert (TX_DONE | RX_DONE) & CRC_ERROR == 0;
    }

    /** And what is heard is the packet whose length and bytes the two reads give. */
    lemma CooperationHears(w: nat, n: nat, r: nat, p: Packet)
      requires Cooperates() && Sane() && |p.payload| <= MAX_FRAME_PAYLOAD
      requires spiRead(r).data == [|Encode(p)|] && spiRead(r + 2).data == Encode(p)
      ensures Heard(w, n, r) == p
    {
      CooperationSucceeds(w, n, r);
      ReceivedEncode(p);
      assert ReadByte(r) == |Encode(p)|;
      assert FrameRead(w, n, r) == Encode(p);
    }

    /** Nor does it matter which writes and IRQ reads it took. */
    lemma CooperationHearsTheSame(w: nat, n: nat, w': nat, n': nat, r: nat)
      requires Cooperates() && Sane()
      ensures Heard(w, n, r) == Heard(w', n', r)
    {
      CooperationSucceeds(w, n, r);
      CooperationSucceeds(w', n', r);
    }

    lemma IfCooperating(w: nat, n: nat, r: nat)
      requires Sane()
      ensures Cooperates() ==>
                && SendResult(w, r, n) == Ok && WaitResult(w, n) == Ok && ReadResult(w + 2, n, r) == Ok
                && Heard(w + 2, n, r) == Heard(0, 0, r)
    {
      hide Cooperates, FrameRead, Heard, Overlay, ReadResult, Received, Sane, SendResult, WaitResult, Zeros;
      if Cooperates() {
        CooperationSucceeds(w, n, r);
        CooperationSucceeds(w + 2, n, r);
        CooperationHearsTheSame(w + 2, n, 0, 0, r);
      }
    }
  }
}
