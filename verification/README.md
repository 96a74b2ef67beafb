# Reliable burst transfer over LoRa: a verified model

The library moves a blob of data between two SX127x radios as a *burst*: the blob is cut into packets of at most eight
bytes, framed by a BEGIN and an END packet, and sent one packet at a time, each retried until the matching
acknowledgement arrives. The receiver acknowledges every packet first, drops duplicates and out-of-order data, captures
the burst, hands it to the end callback, and routes single "command" packets to another callback in the meantime.

The model has four layers, each in the form the library gives it, and a composition:

| layer | files |
|---|---|
| packets and their bytes | `Packets`, `Codec` (values), `PacketCells` (the heap structure and its payload buffer) |
| the receive handler | `Handler` (its step function), `RxHandler` (the context structure updated in place), `Stuttering`, `Captures`, `Resumption` (whole traces) |
| fragmentation and reassembly | `Fragments` (values and bursts through the handler), `Fragmenter` (arrays filled, shifted and copied in place) |
| radio driver, sender, receiver loop | `Device` (clock, IRQ, SPI, FIFO and static buffers), `Sending`, `Receiving` (the loops), `Protocol` (the automata the loops are proved to follow), `Application` |
| the whole protocol | `Stream` (several blobs one after the other), `Arq` (both automata and two lossy FIFO channels), `Delivery`, `Progress` |

How the layers meet:

- The imperative code is proved against the functions and automata: `RxHandler.Handle` against `Handler.Step`, `SendBurst`
  against `Protocol.SenderRun` and `StartRxLoop` against `Protocol.ReceiverRun`, event by event as seen at the radio.
- `Arq` puts the two automata together. Every choice the environment has (loss, failed or late errors in sending, failed
  reception, failed wait, interleaving) is a label of a step; the theorems hold for every sequence of labels, so for every
  schedule. `Delivery.SenderProjection` and `Delivery.ReceiverProjection` say that each half of a run is a run of the
  automaton the code follows; `Delivery.EverySenderStepIsALabel` and `Delivery.EveryReceiverStepIsALabel` say that no
  behaviour of the code is missing.
- The platform is a set of functions nobody constrains: what the n-th IRQ read, SPI read and SPI write answer, and how long
  the n-th platform call takes. So everything said of `Device`, `Sending` and `Receiving` holds for every behaviour of the
  radio and the port. Three things are taken from how the callbacks are meant to work: a failed read leaves the caller's
  buffer alone, a delay takes at least as long as asked, and a received frame announces at most 248 payload bytes
  (`Device.Sane`), since the parser has no bound of its own. `Device.Cooperates` describes a platform on which no call fails
  and every IRQ read shows both flags; what the code achieves there is said beside what holds on every platform.

What came out of it that the documentation does not say (the model follows the code):

- The frame diagram in the repository's README (lines 157 to 164) leaves out the payload length byte; it is byte 6 and the
  payload starts at byte 7.
- The duplicate key of a fresh handler is (0, 0), so the BEGIN of a first burst under ack id 0 is dropped and the burst is
  not delivered: `Fragments.BurstIsDeliveredIff`, `Fragments.FirstBurstUnderIdZeroIsLost`. For the same reason, and
  because an idle handler's capture ack id is 0, commands under ack id 0 are rejected:
  `Fragments.UnframedPacketsAreCommandsIff`.
- The duplicate key ignores the packet type, so an empty packet can shadow a data packet with its key:
  `Captures.NextFrameIsTakenIffNotShadowed`, `Captures.AShadowedFrameIsLost`; over whole traces
  `Captures.CaptureIsLongestUnshadowedPrefix` and `Fragments.ShadowedBurst`.
- END does not compare the ack id and BEGIN does not restart a capture. After a burst was given up, sending the same blob
  again under the same ack id completes it, but a blob under a new ack id is lost: `Resumption.AnyBurstIsDeliveredIff`,
  `Resumption.AbandonedBurstMisleads`. Over the lossy channels the same condition decides about the first blob, and every
  later one is delivered whatever the receiver was busy with: `Delivery.SuccessMeansDelivered`.
- The receiver acknowledges before it handles, and its loop ends when sending an acknowledgement fails, even after the
  acknowledgement went out. So a sender can be told of success while END is never handled: `Progress.SuccessWithoutDelivery`.
  `Delivery.SuccessAtAnyMoment` says how to tell: the receiver is still capturing.
- A framed blob of 255 fragments or more can never be sent successfully: `Stream.BurstCanSucceedIff`.
- `read_last_packet` always reports success; what it makes of a failure is the all-zero packet, which is harmless as long as
  the two ends have different addresses: `Device.ReadLastPacket`, `Handler.GarbageIsInert`, `Arq.StaleRepliesAreRefused`.
- `poll_for_irq_flag` takes its timeout in milliseconds; the repository's README (line 213) calls it `timeout_us`.

## Model

| member | source | states |
|---|---|---|
| `Packets.AcceptsOnlyItsReply` | src/packet.c:41-64 | a reply passes the sender's check exactly when it is the receiver's own acknowledgement of that frame (empty, addresses exchanged, key kept) and that acknowledgement has the expected type; for an acknowledgement type no data packet passes |
| `Packets.TypeIff` | src/packet.c:41-50 | which packets are of which type, by emptiness of the payload and the numbers 0 and 255 |
| `Codec.FrameLayout` | src/packet.c:156-178 | where each field stands in a frame: destination and source with the high byte first, ack id, sequence number, payload length, payload |
| `Codec.DecodeEncode` | src/packet.c:100-178 | parsing a serialised packet gives it back, whatever bytes follow it in the buffer |
| `Codec.EncodeDecode` | src/packet.c:100-178 | every parsable buffer begins with exactly the frame of the packet parsed from it |
| `Codec.EncodeInjective` | src/packet.c:156-178 | different packets have different frames |
| `Codec.ReceivedEncode` | src/sx127x_rx_utils.c:76-95 | a frame with at most 248 payload bytes, read over the zeroed 255-byte buffer, parses to the packet sent |
| `Codec.ReceivedNothing` | src/sx127x_rx_utils.c:76-95 | the zeroed buffer itself parses to the all-zero packet |
| `Codec.RelayIsFaithful` | src/sx127x_utils.c:84-103 | any sequence of packets sent through one never-cleared transmit buffer and parsed from the scrubbed receive buffer arrives unchanged: no stale byte of an earlier, longer frame is sent or parsed |
| `PacketCells.Construct` | src/packet.c:83-97 | NULL exactly for payloads over eight bytes; otherwise a new structure that owns the very payload buffer passed in |
| `PacketCells.ConstructAck` | src/packet.c:148-152 | a fresh packet with an empty payload and the given addresses and key |
| `PacketCells.Copy` | src/packet.c:74-81 | an equal packet that shares neither structure nor payload with anything |
| `PacketCells.Parse` | src/packet.c:100-138 | overwrites the packet with what the buffer decodes to, gives it a payload buffer of its own, and returns the size of its frame |
| `PacketCells.ToBytestream` | src/packet.c:156-178 | writes the frame over the front of the buffer and nothing else; -1 and no write when it does not fit |
| `PacketCells.CheckPacketType` | src/packet.c:41-50 | the type by sequence number and emptiness of the payload |
| `PacketCells.CheckReply` | src/sx127x_utils.c:165-170 | `check_packet_features` on a reply with the sender's arguments accepts exactly mirrored addresses, same key, expected type |
| `Handler.ReturnTellsEffect` | src/rx_packet_handler.c:33-133 | for each return code the whole new state and the callbacks; a refused packet changes nothing, or only the duplicate key when it was on the link |
| `Handler.EffectTellsReturn` | src/rx_packet_handler.c:33-133 | the other way round: each effect is reported by its own code and no other |
| `Handler.ReturnCodeIff` | src/rx_packet_handler.c:33-133 | exactly which packets get which return code, in terms of the packet's fields, the context and the numbers 0, 254 and 255; CAPTURE_ARRAY_FULL told from PACKET_REJECTED |
| `Handler.ForeignPacketsAreRefused` | src/rx_packet_handler.c:49-59 | a packet to another address or from another sender is rejected, changes nothing and causes no callback |
| `Handler.ForeignTrafficIsInvisible` | src/rx_packet_handler.c:49-59 | every trace leads to the same state and callbacks as without the packets to another address or from another sender |
| `Handler.StepKeepsWellFormed` | src/rx_packet_handler.c:33-133 | one packet keeps: at most 254 captured, numbered 1..n under the capture's ack id, non-empty payloads, nothing captured while idle |
| `Handler.RunKeepsWellFormed` | src/rx_packet_handler.c:33-133 | the same over every trace; addresses and configuration never change |
| `Handler.GarbageIsInert` | src/rx_packet_handler.c:49-59 | the packet a failed reception parses to neither changes the handler nor causes a callback, when host and remote differ |
| `Handler.RunAppend` | src/rx_packet_handler.c:33-133 | running two traces one after the other is running them as one: same final state, return codes and callbacks |
| `RxHandler.RxHandler.constructor` | src/rx_packet_handler.c:4-12 | an initialised context: idle, nothing captured, duplicate key (0, 0) |
| `RxHandler.RxHandler.Unconfigured` | src/rx_packet_handler.c:37-41 | a zeroed context that was never initialised |
| `RxHandler.RxHandler.SetRemote` | src/rx_packet_handler.c:14-17 | only the remote address changes |
| `RxHandler.RxHandler.Reset` | src/rx_packet_handler.c:20-25 | capture off, nothing captured, ack id 0; duplicate key, addresses and callbacks stay |
| `RxHandler.RxHandler.Handle` | src/rx_packet_handler.c:33-133 | new state, return code and callbacks are those of the step function, unconfigured and NULL cases included; only the context and its slots are written, what is kept of the packet is fresh |
| `RxHandler.RxHandler.Switch` | src/rx_packet_handler.c:71-129 | the switch on the packet type, against the dispatch function |
| `RxHandler.RxHandler.OnBegin` | src/rx_packet_handler.c:73-83 | opens an empty capture under the packet's ack id, or changes nothing when one is open |
| `RxHandler.RxHandler.OnData` | src/rx_packet_handler.c:85-113 | captured when next in sequence, a command when of another ack id, refused otherwise; array-full case included |
| `RxHandler.RxHandler.OnEnd` | src/rx_packet_handler.c:115-124 | the end callback gets exactly the captured packets, then the capture is cleared; nothing when none is open |
| `RxHandler.RxHandler.CaptureCopy` | src/rx_packet_handler.c:99-102 | the packet is appended to the capture as a fresh copy, earlier captures unchanged, nothing aliased |
| `Stuttering.StutterInvariance` | src/rx_packet_handler.c:49-69 | repeating packets of any trace in place changes neither final state nor callbacks; each extra copy past the address filter returns PACKET_REDUNDANT and the originals return what they did |
| `Captures.CaptureStep` | src/rx_packet_handler.c:61-104 | one packet of a burst or of noise: the next one needed is captured, any other leaves the capture as it is |
| `Captures.CaptureIsLongestPrefix` | src/rx_packet_handler.c:61-104 | for any trace of lost, repeated and reordered frames of one burst mixed with noise, the capture is the longest prefix of the burst occurring in order in the trace; duplicate detection never drops a frame it needs |
| `Captures.NextFrameIsTakenIffNotShadowed` | src/rx_packet_handler.c:61-104 | the next data frame is captured if and only if its key was not the last one seen |
| `Captures.CaptureIsLongestUnshadowedPrefix` | src/rx_packet_handler.c:61-104 | over traces that may also hold empty frames of the capture's own ack id, the capture is the longest prefix of the burst occurring in order among the packets whose key differs from that of the packet past the address filter before them |
| `Captures.AShadowedFrameIsLost` | src/rx_packet_handler.c:61-66 | a concrete trace in which an empty packet makes the handler drop the first data frame as redundant |
| `Captures.CommandsLeaveTheCapture` | src/rx_packet_handler.c:85-113 | a trace with commands and the same trace without them lead to the same capture; the callbacks are the commands, in order, equal-keyed neighbours once |
| `Captures.CommandsDoNotDisturb` | src/rx_packet_handler.c:85-124 | at END, what is delivered with commands mixed in anywhere is what is delivered without them |
| `Captures.CaptureHistory` | src/rx_packet_handler.c:73-104 | an open capture holds packets that arrived, in order, since the BEGIN that opened it |
| `Captures.DeliveredCapturesAreWellFormed` | src/rx_packet_handler.c:73-124 | whatever the end callback gets, on any trace, is a subsequence of what arrived since the opening BEGIN, under its ack id, numbered 1..n, non-empty, n at most 254 |
| `Fragments.PrefixReassembles` | src/network_data_operations.c:13-18 | reassembling the first k fragments gives the first 8k bytes of the blob |
| `Fragments.ReassembleConcatenates` | src/network_data_operations.c:13-18 | reassembly of any packets is the concatenation of what any two parts of them give |
| `Fragments.RoundTrip` | src/network_data_operations.c:8-70 | reassembling the fragments of any blob of any length gives the blob |
| `Fragments.FragmentSizes` | src/network_data_operations.c:31-52 | ceil(len/8) fragments, all but the last of eight bytes, the last with the rest |
| `Fragments.SequenceNumbers` | src/network_data_operations.c:43-69 | framed: BEGIN numbered 0, data 1, 2, ..., END numbered 255; unframed: data from 0; all modulo 256 |
| `Fragments.PacketsFollowTheRoute` | src/network_data_operations.c:50-68 | every packet, BEGIN and END included, carries the addresses and the ack id asked for |
| `Fragments.KeysAreDistinctIff` | src/network_data_operations.c:43-69 | no two frames of a burst share a key if and only if it has at most 254 fragments |
| `Fragments.InOrderCapture` | src/rx_packet_handler.c:85-104 | the data frames of a burst, in order, to a handler that has just opened the capture: all captured, no callback |
| `Fragments.BurstIsDelivered` | src/rx_packet_handler.c:71-124 | a burst of at most 254 fragments presented once in order to an idle handler is delivered once, as exactly its data packets, and leaves the handler idle |
| `Fragments.IdleHandlerRoutes` | src/rx_packet_handler.c:105-113 | data packets to an idle handler become commands in order, a first one with the last key dropped, all rejected under ack id 0 |
| `Fragments.UnopenedBurst` | src/rx_packet_handler.c:61-113 | a burst of any length whose BEGIN is dropped as redundant: its fragments become commands, or nothing under ack id 0, and the handler stays idle |
| `Fragments.BurstIsDeliveredIff` | src/rx_packet_handler.c:4-69 | an idle handler delivers an in-order burst if and only if it has not just seen the key of its BEGIN; otherwise it delivers nothing at all |
| `Fragments.FirstBurstUnderIdZeroIsLost` | src/rx_packet_handler.c:6 | on a freshly initialised handler a whole blob of any length under ack id 0 causes no callback at all |
| `Fragments.ReorderedBurst` | src/rx_packet_handler.c:61-124 | between BEGIN and END, with frames lost, repeated, reordered and mixed with noise, END delivers the longest prefix that arrived in order, and the whole burst if and only if all of it occurs in order |
| `Fragments.ShadowedBurst` | src/rx_packet_handler.c:61-124 | the same with empty frames of the burst's own ack id mixed in: END delivers the longest prefix that arrived in order and not shadowed, the whole burst if and only if all of it did |
| `Fragments.UnframedPacketsAreCommandsIff` | src/network_data_operations.c:43-52 | all packets of an unframed blob of any length reach the command callback if and only if the ack id is not 0 and the handler has not just seen its first key; what happens otherwise |
| `Resumption.BurstDuringCapture` | src/rx_packet_handler.c:73-124 | a whole burst to a handler still capturing: under the same ack id it completes the capture, under another its fragments become commands and its END delivers the old capture |
| `Resumption.ResendingCompletes` | src/rx_packet_handler.c:73-124 | sending a blob again after giving up delivers it once and whole, whatever prefix had been captured |
| `Resumption.AnyBurstIsDeliveredIff` | src/rx_packet_handler.c:61-124 | for a handler in any well-formed state, exactly when an in-order burst is delivered (`Deliverable`): idle, without having just seen its BEGIN's key, or in a capture under its ack id that holds a prefix of it |
| `Resumption.DeliverableUpToEnd` | src/rx_packet_handler.c:71-104 | such a burst up to its END: all of it is captured and no callback has been made |
| `Resumption.DeliverableBurst` | src/rx_packet_handler.c:71-124 | such a burst causes its one delivery and no other callback |
| `Resumption.IdleAfterAnyBurst` | src/rx_packet_handler.c:115-124 | whatever the handler was busy with, after a whole burst it is idle and has just seen that burst's END |
| `Resumption.AbandonedBurstMisleads` | src/rx_packet_handler.c:115-124 | a concrete run from initialisation: after the BEGIN of a burst that is then given up, a blob under a new ack id is not delivered and an empty capture is |
| `Fragmenter.FillFragments` | src/network_data_operations.c:31-52 | the loop stores exactly the fragments, in fresh structures with fresh, separate payload buffers |
| `Fragmenter.FrameCells` | src/network_data_operations.c:56-69 | room for two more, everything one slot up in place, BEGIN in front and END behind: every slot of the result |
| `Fragmenter.AddFraming` | src/network_data_operations.c:56-69 | after that the array holds BEGIN, every fragment in order, END; nothing lost or aliased |
| `Fragmenter.ShiftUp` | src/network_data_operations.c:65 | the overlapping one-slot move, and what it leaves alone |
| `Fragmenter.DataToPacketArray` | src/network_data_operations.c:26-77 | the caller's array gets the framed or unframed packets of the blob, fresh and unaliased; slots behind them are untouched |
| `Fragmenter.PacketArrayToData` | src/network_data_operations.c:8-21 | the buffer gets the concatenated payloads; bytes behind them are untouched; the result is 0 |
| `Protocol.ExchangeShape` | src/sx127x_utils.c:148-178 | until it ends an exchange alternates sending its frame and listening in vain; how many events lead to each result, and which event ends it |
| `Protocol.RetryVerdict` | src/sx127x_utils.c:141-186 | over any oracle of attempts: success if and only if some attempt among the first `limit` is acknowledged with no earlier transmit error; otherwise the first transmit error, or a timeout; a reply counts only in the attempt that heard it |
| `Protocol.SenderShape` | src/sx127x_utils.c:63-81 | a burst succeeds exactly when all its frames are acknowledged |
| `Protocol.SenderRunsExchange` | src/sx127x_utils.c:63-78 | a finished exchange moves the burst on by one frame, or ends it with the exchange's error |
| `Protocol.PassableIff` | src/sx127x_utils.c:67-74 | a frame can be acknowledged as scheduled if and only if its sequence number is 0 at the front, 255 at the end, and neither in between |
| `Protocol.NeverPastImpassable` | src/sx127x_utils.c:63-78 | whatever the radio does, a burst never gets past a frame whose acknowledgement cannot be of the scheduled type |
| `Protocol.CanSucceedIff` | src/sx127x_utils.c:56-82 | a packet array can be sent successfully if and only if every frame's acknowledgement is of the scheduled type |
| `Protocol.TransmissionBound` | src/sx127x_utils.c:63-78 | at most four transmissions for each frame, at every moment of a burst |
| `Protocol.FourthAttemptCounts` | src/sx127x_utils.c:148-178 | after up to three attempts in vain at a frame, an accepted reply to the next one moves the burst on by one frame |
| `Protocol.FourVainAttemptsEndIt` | src/sx127x_utils.c:148-178 | after four attempts in vain the burst ends in a timeout with that frame unacknowledged |
| `Protocol.FailureMeansFourInVain` | src/sx127x_utils.c:63-81 | a burst fails only with a failed transmission, whose error it returns, or with a timeout after exactly four transmissions of the current frame since it was first about to be sent, each followed by a wait in vain |
| `Device.Device.PollForIrqFlag` | src/sx127x_driver.c:154-203 | with defaults for zero arguments: at most floor(timeout/interval) + 2 reads, and exactly as many before a timeout when only the delays take time; success at the first read that shows the flag, an error at the first failed read, a timeout only when every read lacked the flag and the time is up; the flags are cleared when asked |
| `Device.Device.PollUntilDecided` | src/sx127x_driver.c:167-202 | its loop: terminates, and reads only as often as the delays allow |
| `Device.Device.PollNoTimeout` | src/sx127x_utils.c:249-280 | ends only at the first failed read or the first that shows the flag; while it does not, every read was undecided; between two reads it waits for the interval |
| `Device.ScriptsInNumbers` | src/sx127x_driver.c:81-149 | the register writes of a transmission, addresses, modes and values in numbers |
| `Device.Device.SendingSucceedsIff` | src/sx127x_driver.c:78-152 | sending succeeds if and only if eight writes and the read succeed and the poll shows bit 0x08; otherwise the status of the first write before the transmission to fail, the failed flag read's, or a timeout |
| `Device.Device.SendPayload` | src/sx127x_driver.c:78-152 | success exactly when every call succeeds and polling shows TxDone, otherwise the status of the first that fails (the clearing of the flags after polling may fail unnoticed); the register writes follow the script and stop there, register 0x0E is what is read; exactly the given bytes go on the air, exactly when the switch to transmit mode succeeds; TxDone is polled for in transmit mode, every 3 ms, and given up only after more than 3000 ms |
| `Device.Device.LoadFifo` | src/sx127x_driver.c:81-120 | the same for the part before the transmission; on success the FIFO holds exactly the frame |
| `Device.Device.Fire` | src/sx127x_driver.c:122-151 | the same for the transmission: the FIFO's contents go on the air once, and the mode asked for follows |
| `Device.Device.SendPacket` | src/sx127x_utils.c:84-104 | whatever is left in the transmit buffer, what goes on the air is the frame of this packet; more than 255 bytes are refused with nothing sent; otherwise the result is that of sending the payload, success and every error; all register writes on success |
| `Device.Device.FlagsDecide` | src/sx127x_driver.c:24-42 | a reception succeeds only with bit 0x40 set and bit 0x20 clear and the reads and writes after it successful, and then it does; without 0x40 it is invalid state, with 0x20 invalid CRC, and no frame |
| `Device.Device.ReadScriptInNumbers` | src/sx127x_driver.c:17-72 | the register writes of a reception in every case, in numbers |
| `Device.Device.ReadLastPayload` | src/sx127x_driver.c:12-76 | success exactly when RxDone (0x40) shows without a CRC error (0x20) and every call but the read of the byte count succeeds; invalid state without the one, invalid CRC with the other, otherwise the status of the failing call; the frame over the front of the buffer on success, the buffer as before on failure; every register write, and that 0x13, 0x10 and 0x00 are read |
| `Device.Device.ReadFromFifo` | src/sx127x_driver.c:44-70 | when it succeeds and which error it returns, how many bytes are read and from where, and that a failed read leaves the buffer alone |
| `Device.Device.ReadLastPacket` | src/sx127x_rx_utils.c:76-95 | always success; the packet is what the received frame over zeros parses to, so the packet sent after a good reception and the all-zero packet after any failure, a missing RxDone or a CRC error in particular; every register write; the buffer is all zeros again |
| `Device.Device.WaitSucceedsIff` | src/sx127x_utils.c:20-39 | the wait succeeds if and only if both mode switches do and bit 0x40 shows; which error or timeout otherwise |
| `Device.Device.WaitForPacket` | src/sx127x_utils.c:20-39 | RxDone is polled for in single reception mode (0x86), every millisecond, and given up undecided only after more than the timeout, 3000 ms if that is 0, with as many reads as fit when only the delays take time |
| `Device.Device.PollAndReadPacket` | src/sx127x_utils.c:16-54 | for every timeout, 0 included: the status of the first step of the wait that fails, a timeout only after more than that time, or, once RxDone showed, the packet that reading the FIFO at once gives; every register write, ending with the flags cleared and standby mode |
| `Device.Device.CooperationHears` | src/sx127x_driver.c:44-75 | on a platform no call of which fails, a reception whose length and bytes are those of a packet's frame is parsed to that packet |
| `Sending.AcknowledgedFramesAired` | src/sx127x_utils.c:63-78 | every acknowledged frame went on the air |
| `Sending.AttemptsCoverTheTimeout` | src/sx127x_utils.c:148 | the number of attempts is the least with which 3000 ms each cover the timeout, none for no timeout |
| `Sending.ExchangeAttempt` | src/sx127x_utils.c:149-176 | what one attempt leaves in the log, as steps of the automaton |
| `Sending.Attempt` | src/sx127x_utils.c:151-175 | one attempt: its events, its verdict on the reply it heard itself, the register writes of sending (with reception switched on afterwards) and of the wait, at most 4005 IRQ reads; on a platform that cooperates, accepted exactly when the reply received is the frame's |
| `Sending.AwaitReply` | src/sx127x_utils.c:158-175 | the reply heard in this wait is what is judged; a wait without error or packet took more than 3000 ms, in single reception mode |
| `Sending.Retry` | src/sx127x_utils.c:149-178 | the loop returns what the exchange automaton makes of the events it caused; on a platform that cooperates, success with the first attempt answered and a timeout when none is |
| `Sending.SendPacketEnsureAck` | src/sx127x_utils.c:141-186 | the same for ceil(timeout/3000) attempts, ending with flags cleared and the radio asleep |
| `Sending.SendNth` | src/sx127x_utils.c:65-77 | one frame with the acknowledgement type its position asks for, in up to four attempts, freed exactly when acknowledged |
| `Sending.SendBurst` | src/sx127x_utils.c:56-82 | result and acknowledged prefix are those of the sender automaton on the events caused; exactly that prefix is freed; failure only with a failed transmission or after four attempts in vain at one frame; success when the platform cooperates and answers each frame in one of its first four attempts; transmissions polled for in mode 0x83, replies in 0x86; at most 16020 IRQ reads for each frame |
| `Receiving.HearAndReply` | src/sx127x_rx_utils.c:53-65 | the packet the reception is parsed to and its acknowledgement, mirrored addresses and same key, in this order; every register write, the radio asleep after the acknowledgement |
| `Receiving.ReceiveOne` | src/sx127x_rx_utils.c:53-67 | heard, acknowledged, handled, in the automaton's order; when the acknowledgement fails the packet is not handled |
| `Receiving.Wait` | src/sx127x_rx_utils.c:32-51 | flags cleared and continuous reception (0x85) switched on, and nothing else written, before every poll; how a wait can end, with the failing write's error if one fails, and that a packet was signalled when it ends well; one millisecond between two reads |
| `Receiving.Round` | src/sx127x_rx_utils.c:30-68 | a round handles exactly one packet, or ends in one of the four ways that handle none; it begins with the writes of the wait, polls for a packet with continuous reception switched on and then for the end of the acknowledgement in transmit mode |
| `Receiving.StartRxLoop` | src/sx127x_rx_utils.c:13-74 | handler state and callbacks are what the receiver automaton makes of the events, with one packet structure reused throughout; every round not spent on a failed wait handles a packet, and every round does when the platform cooperates; every poll for a packet is made with 0x85 as the last mode written; a failed write ends the loop with its error |
| `Stream.Neighbours` | src/network_data_operations.c:43-69 | neighbouring frames of a stream of bursts have different keys, an END and the next burst's BEGIN included |
| `Stream.WholeBlobs` | src/rx_packet_handler.c:71-124 | the frames of k blobs, each once in order, to a handler busy with anything: it is idle afterwards, and every blob but the first is delivered |
| `Stream.CallsAreDeliveriesIff` | src/rx_packet_handler.c:61-124 | all of them and nothing else are delivered if and only if the handler was ready for the first |
| `Stream.AllButEnd` | src/rx_packet_handler.c:71-124 | up to the END of a blob, the blobs before have been delivered and this one is captured |
| `Stream.DeliveredSoFar` | src/rx_packet_handler.c:71-124 | after any number of frames of the stream the callbacks are a prefix of those for all blobs |
| `Stream.ScheduleFitsIff` | src/sx127x_utils.c:67-74 | all frames of a framed blob can be acknowledged as scheduled if and only if it has at most 254 fragments |
| `Stream.ScheduleIsExact` | src/sx127x_utils.c:67-74 | the reply to frame j passes the check for frame i if and only if i = j; a data packet never passes |
| `Stream.BurstCanSucceedIff` | src/sx127x_utils.c:56-82 | `send_burst` on a framed blob can succeed if and only if it has at most 2032 bytes, 254 fragments, the size of the receiver's capture array |
| `Arq.StaleRepliesAreRefused` | src/sx127x_utils.c:165-170 | neither garbage nor the reply to the frame before is taken for the current frame's acknowledgement, across blobs too |
| `Arq.ChannelsAreLossyQueues` | src/sx127x_utils.c:149-176 | what every step does to the channels: frames come in at the back and leave at the front, unless lost |
| `Arq.AnyFrameCanBeLost` | src/sx127x_utils.c:149-176 | any frame and any acknowledgement under way can be lost at any moment |
| `Arq.OldestAckJudged` | src/sx127x_utils.c:158-175 | in a state of the invariant an acknowledgement is accepted only when the receiver has heard the current frame and nothing older is under way |
| `Arq.HandledOnce` | src/sx127x_rx_utils.c:60-67 | handling garbage or a frame seen before changes nothing, a new frame is handled on top of all before it |
| `Arq.StepKeepsInvariant` | src/sx127x_rx_utils.c:53-67 | every step of sender, receiver and channels keeps the alternating-bit invariant |
| `Arq.InvariantAlways` | src/sx127x_utils.c:149-176 | in every reachable state the data channel is F(g-1)\* F(g)\*, the acknowledgement channel A(g-1)\* A(g)\* (replies to garbage aside), and the receiver has processed g or g + 1 frames |
| `Delivery.CallsArePrefix` | src/sx127x_rx_utils.c:53-67 | in every reachable state, whatever the receiver was busy with before, the callbacks are a prefix of those the frames of the blobs cause when presented once and in order |
| `Delivery.DeliveriesArePrefix` | src/sx127x_rx_utils.c:53-67 | with a receiver ready for the first blob, in every reachable state what was delivered is a prefix of the blobs sent, in order, each once, and reassembles to them byte for byte |
| `Delivery.SuccessMeansDelivered` | src/sx127x_utils.c:56-82 | after a success, with no packet left to handle, every blob up to this one but perhaps the first has been delivered; all of them, with nothing else and byte for byte, if and only if the receiver was ready for the first when it began, resending after a given-up burst included |
| `Delivery.SuccessAtAnyMoment` | src/sx127x_rx_utils.c:60-67 | after a success, at any moment: the blob has been delivered if and only if the receiver is no longer capturing; otherwise its END is what the receiver is busy with, or the receiver stopped without handling it |
| `Delivery.UncertaintyIsOneFrame` | src/sx127x_utils.c:63-81 | at every moment, also after giving up, with g frames acknowledged: the receiver has processed exactly the first k, no gap, none twice, where k is g or g + 1, or g - 1 while it is busy with the last acknowledged frame or has stopped |
| `Delivery.SenderProjection` | src/sx127x_utils.c:56-82 | the sender's events in any run of the system are a run of the automaton that `send_burst` follows |
| `Delivery.ReceiverProjection` | src/sx127x_rx_utils.c:30-68 | the receiver's events in any run of the system are a run of the automaton that `start_rx_loop` follows |
| `Delivery.EverySenderStepIsALabel` | src/sx127x_utils.c:149-176 | whatever event the sender can take next, with a channel that can hand over what it hears, its label is an enabled step of the system and is that event |
| `Delivery.EveryReceiverStepIsALabel` | src/sx127x_rx_utils.c:30-68 | the same for the receiver |
| `Progress.FramesUpTo` | src/sx127x_utils.c:63-79 | from any quiet state any further number of frames of the current blob can be sent without a retransmission, the receiver keeping in step |
| `Progress.EverythingCanBeDelivered` | src/sx127x_utils.c:56-82 | every setup whose receiver is ready for the first blob has a run in which every blob is delivered |
| `Progress.SuccessWithoutDelivery` | src/sx127x_rx_utils.c:60-65 | every such setup also has a run in which the sender reports success for the first blob and the receiver, having acknowledged END, has stopped without delivering it |
| `Application.SendBlob` | examples/esp32c3_6/burst/main/main.c:207-244 | fragment and send, for every behaviour of the radio: success means at most 2032 bytes (254 fragments), every frame on the air, and a bounded number of IRQ reads; success it is when the platform cooperates and answers each frame in one of its first four attempts |
| `Application.OnBurstComplete` | examples/esp32c3_6/burst/main/main.c:251-270 | the end callback's buffer holds exactly the concatenated payloads of the packets in the slots, and the terminator |
| `Application.DeliverBlob` | examples/esp32c3_6/burst/main/main.c:251-270 | on a handler whose slots hold a blob's captured fragments, that buffer holds the blob byte for byte |
| `Application.FragmentAndReassemble` | src/network_data_operations.c:8-77 | on the heap, for every length: fragmenting and reassembling gives the data back |

## Left out

- RxHandler.RxHandler.SetRemote: the theorems over whole traces keep the remote address fixed; a change during a capture is not followed.
- Receiving.StartRxLoop: the loop is infinite; it is watched for any number of rounds and of IRQ reads in each wait, and its return value in between is "still running".
- Device.Device.PollNoTimeout: watched for any number of reads, for the same reason.
- Delivery.SuccessMeansDelivered: a later blob is only begun after the earlier ones succeeded, as the example application does. A run in which a burst is given up ends there; the next one begins with whatever state the receiver was left in and with empty channels.
- Delivery.DeliveriesArePrefix: the channels are first in, first out, may lose anything, and hand over intact frames or none; the radio does not duplicate of its own accord. Commands are not sent during these runs; `Captures.CommandsDoNotDisturb` covers them for the handler.
- Sending.SendPacketEnsureAck: the number of attempts is an integer ceiling; rounding of `float` for very large timeouts is not modelled.
- Device.Device.ReadLastPacket: payload lengths above 248 in a received frame, which the parser would read past its buffer, are excluded.
- Progress.EverythingCanBeDelivered: says that delivery is possible; that it happens needs a fair radio, of which nothing is assumed.
- Freed packets: a freed slot is null in the model; the C array keeps the dangling pointer, and the freed packets' payload buffers leak.
- NULL payloads are empty arrays, and a packet's payload length is the length of its payload array.
- malloc failure, leaks, negative `data_len` and `len`, and integer conversions of absurd sizes.
- Logging and `packet_description`, which have no effect on the protocol.
- `sx127x_config.c` beyond reading and clearing the IRQ register and switching modes: channel and frequency arithmetic over a few fixed values.
- `sx_1278_get_channel_rssis`, `switch_to_fsk`: hardware probing.
- Radio chip internals, airtime, collisions and traffic of other nodes.
- `rx_handler_get_captured_array`: an accessor.
