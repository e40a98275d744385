# A verified model of the TSN field bus core

TSN-fieldbus connects one master and its slaves over two planes: a cyclic data plane ("L2"),
whose frames carry process data under a sequence number and a keyed tag, and a discovery plane
("SDCP"), over which the master finds slaves and assigns IP addresses. This project models both
planes and proves what they are for, over every input and every run: what a receiver accepts
was sent, in order and once; where each bit of an input image comes from; what the result of a
discovery call means on the slave; and exactly when honest traffic gets through.

All files verify together with `dafny verify dfyconfig.toml`.

## How it is built

State that the program updates in place is a class here: the stream store, both process images,
the receiver and sender loops, the state manager, the authentication contexts, both sides of
discovery. Each method is proved against a function on values (`Receive`, `SendAll`,
`WriteInputs`, `Listen`, `WaitAll` and so on). The step systems `L2Network` and `SdcpNetwork` are
built from those same functions, and the theorems about runs are about them.

| layer | files |
|---|---|
| numbers, bytes, bits, codecs | `Types`, `Arithmetic`, `Bits`, `BigEndian`, `AuthFooter`, `L2Frame`, `SdcpCodec`, `Wire`, `Crypto` |
| data plane, one step | `StreamStore`, `BitField`, `ProcessImage`, `CycleCounter`, `CycleMetrics`, `Gcd`, `L2Receiver`, `L2Sender` |
| data plane, whole runs | `Schedule`, `L2Network`, `L2Safety`, `L2Running`, `L2Delivery`, `L2Meaning`, `L2Provenance`, `L2Cycles`, `L2Pacing` |
| discovery, one step | `DiscoveryAuth`, `DiscoverySlave`, `DiscoveryMaster` |
| discovery, whole runs | `SdcpNetwork`, `SdcpSafety`, `SdcpResults`, `SdcpCalls`, `SdcpExchange` |
| life cycle, configuration | `StateMachine`, `SlaveApi` |

Main results, hardest first:

1. `L2Safety.AcceptedIsSubsequence`, `L2Safety.AcceptedIff`: over any number of nodes and any
   loss, duplication, delay, reordering or injection, what a node accepts on a stream is a
   subsequence of what was sent, strictly increasing in number, also after the sender's counter
   saturates; and exactly which frames are accepted.
2. `L2Provenance.FieldProvenance`: every input field holds its first content or the sender's
   output field as it was when the last applied frame was sent; no other bit moves.
3. `L2Cycles.MissedCyclesAreSum`, `L2Pacing.ScheduledStreamsNeverFlagged`: over every run the
   missed-cycle count is the capped sum of what the cycle check reports between consecutive clean
   frames; and with ideal senders and no two losses in a row it stays zero, although the sender
   counts modulo 65535 and the receiver modulo 65536. `CycleCounter.ReportExactIff` says, by the
   clock, exactly when the report of a longer loss is right.
4. `L2Delivery.InOrderDeliveryIsAccepted`: in-order traffic is accepted for the first 2^64 - 1
   frames of a stream, through build, parse, tag and freshness check.
5. `SdcpSafety.ActsAreSubsequence`, `SdcpResults.SetIpConfirmedInRuns`, `SdcpResults.GetIpReportedInRuns`,
   `SdcpResults.DiscoveredAreSlaves`, `SdcpExchange.SetIpCompletesIff`: requests are acted on in order
   and at most once; an assignment is confirmed exactly when the target's one act on it applied
   and stored it, or hid a failure; a report is the target's device info; cached devices are
   slaves that answered; and exactly when a loss-free exchange is confirmed.
6. `ProcessImage.ProcessImage.Read` and `Write`: the byte-copy path and the bit loop compute the
   same bit-level function. `Schedule.SentExactlyAtMultiples`: the frames that leave in a tick are
   exactly one of each stream whose cycle time divides the elapsed time.

## What the runs assume

- The keyed hash is an arbitrary function parameter (`KeyedMac`). Unforgeability is part of
  `Enabled`: a delivered frame whose tag verifies carries the content of some earlier send. All
  other frames, of any bytes, may be delivered at any time.
- Runs of the data plane start from freshly configured stores and last until the next reset;
  `StreamStore.ResetReadmits` shows that freshness does not survive a reset.
- A device state is a snapshot taken at the top of a loop; every statement about states is about
  the snapshot. Each locked method is one atomic step.
- Clocks, received frames, hardware outcomes and whether the channel took a frame are inputs of
  the steps.
- In discovery, MAC addresses are distinct and an authentic frame reaches only its destination,
  or everybody when broadcast.
- Image sizes stay below 2^29 bytes, so that no 32-bit bit index can overflow.

## Where the code departs from its documentation or from what one expects

The model follows the code.

- `common/src/state_machine.rs:64` calls Shutdown terminal; the catch-all arm at line 130 lets it
  go to Error (`StateMachine.EntriesAndExits`).
- `add_stream_configs` can fail with a prefix already inserted (`common/src/stream_store.rs:89-102`).
  `StreamStore.PartialInsertExample` is a case, `StreamStore.RejectedInsertUnchangedIff` the exact condition.
- The comment on `build_request_frame` speaks of padding short frames (`master/src/discovery.rs:365-368`);
  the code does not pad.
- A set-IP answer repeats the error code of the device-info access. Should that access fail with
  "no error" as its code, the master reads the answer as success. `SdcpResults.HiddenFailureExample`
  is a case; `SdcpResults.SetIpAnswer` and `SdcpResults.SetIpConfirmed` carry the exact condition.
- The number of missed cycles is not always the number of lost frames. `CycleCounter.ReportExactIff`
  is the exact condition by the clock, `CycleCounter.NominalExactIff` a simpler one for a nominal
  tick advance, to which cycle times of whole multiples of 125 microseconds always come
  (`CycleCounter.WholeCycleExactIff`). Other cycle times are under-counted, because a nominal cycle
  is rounded up to whole ticks (`CycleCounter.UndercountExample`: 100 frames lost at 260
  microseconds are reported as 93). At a nominal advance the report is one too high when the
  sender's counter wrapped in between (`CycleCounter.ReportedLoss`), and one between half the
  counter range and a full turn (`CycleCounter.LongGapReportsOne`). Nothing is reported when the
  distance comes round to within the tolerance (`CycleCounter.UnflaggedIff`,
  `CycleCounter.FullTurnExample`).
- A transaction id comes round after 65536 requests, and a late answer to an older assignment can
  then confirm a newer one: `SdcpExchange.StaleConfirmationExample` is such a run.

## Model

| member | source | states |
|---|---|---|
| L2Safety.StepInv | common/src/stream_store.rs:142-208 | every send, delivery, output change and restart keeps: sends numbered by count with saturation, receiver counter = number of the last acceptance, acceptances strictly increasing |
| L2Safety.AcceptedIsSubsequence | common/src/stream_store.rs:142-208 | in every run two acceptances of a node on a stream stem from sends of that stream in the same order with strictly increasing numbers, so none is accepted twice |
| L2Safety.AcceptedIff | slave/src/l2_handler.rs:168-227 | in every reachable state a node accepts what it is handed if and only if its receiver runs, the snapshot is Op (or SafeOp on the master), the frame is an authentic one of its input streams, and everything accepted on that stream before has a lower number |
| L2Running.RunsIff | slave/src/l2_handler.rs:168-183 | over every run a receiver runs if and only if it ran at the start or was restarted and every snapshot since was Op or SafeOp |
| L2Running.WatchIs | slave/src/l2_handler.rs:171-175 | whether a receiver runs and which snapshot it compares with the next are as the events of the run say |
| L2Meaning.AppliedIff | slave/src/l2_handler.rs:211-282 | a node writes what it is handed if and only if it accepts it, it has no error status, the field lies in the input image and the payload is long enough |
| L2Meaning.PayloadMeans | common/src/l2_utils.rs:46-56 | a payload holds exactly the bits of the output field, counted in bits on the slave and in whole bytes on the master, with zeros behind; otherwise the code of what is wrong |
| L2Meaning.InputMeans | common/src/l2_utils.rs:19-44 | a written payload changes exactly the bits of the input field, to its leading bits; otherwise the code of what is wrong |
| L2Meaning.CleanSendIsLong | slave/src/l2_handler.rs:388-396 | a send without error status carries exactly the bytes its field needs |
| L2Meaning.SlaveStatus | slave/src/l2_handler.rs:192-282 | which status code each frame leaves on a slave in Op: parse fault, unknown stream, stale or forged, error status, not writable, off its cycle, or unchanged |
| L2Meaning.BitIs | slave/src/hardware_mock.rs:226-234 | bit k of a byte is its quotient by 2^k modulo two |
| L2Delivery.BuiltFrameIsAuthentic | slave/src/l2_handler.rs:388-422 | the bytes a send builds parse back and verify, with the header, payload and number of that send, from the node's own address to the configured destination and VLAN |
| L2Delivery.InOrderDeliveryIsAccepted | common/src/stream_store.rs:157-207 | frames of a stream delivered in order of sending, each at most once, in Op (or SafeOp on the master) to a receiver that still runs, are all accepted up to the 2^64 - 1st, whatever else is delivered |
| L2Delivery.AcceptedRunExists | slave/src/l2_handler.rs:388-434 | from every fresh system, sending a frame and delivering it to a running receiver in Op is a run, and the frame is accepted |
| L2Provenance.FieldProvenance | slave/src/l2_handler.rs:168-283 | over every run with disjoint fields each input field holds its first content or the output field behind the last applied send, zero-extended; bits outside the fields never change |
| L2Provenance.WritesNeedActiveSnapshot | slave/src/l2_handler.rs:168-185 | an input image changes only in a step that accepts a clean frame under an Op snapshot (Op or SafeOp on the master) |
| L2Cycles.MissedCyclesAreSum | slave/src/l2_handler.rs:243-261 | over every run the missed-cycle count is the sum, capped at the counter's width, of what the check reports between consecutive clean acceptances since the last restart or change of state, by the clock values of their sends |
| L2Cycles.SteadyStreamsNeverFlagged | slave/src/l2_handler.rs:243-260 | over every run in which the sends that are compared were one or two cycles apart, by the clock or in nominal ticks, the missed-cycle count stays zero and no counter error is reported |
| L2Pacing.TickIsSends | slave/src/l2_handler.rs:356-434 | a tick of the sender loop is a run of sends, one for each stream that is due, which leaves the node's store as the tick does |
| L2Pacing.PlanIsEven | slave/src/l2_handler.rs:343-386 | an ideal schedule sends each stream at exactly epoch, epoch + c, epoch + 2c, and so on |
| L2Pacing.ScheduledStreamsNeverFlagged | slave/src/l2_handler.rs:168-283 | over every run in which a node's input streams are sent by ideal schedules and no two frames of a stream in a row are lost, no missed cycle is counted and no counter error reported |
| CycleCounter.OneCycleApartNeverFlagged | common/src/l2_utils.rs:82-102 | for every u32 cycle time and clock value, stamps taken exactly one cycle apart are within tolerance |
| CycleCounter.LeastTicks | common/src/l2_utils.rs:91-102 | a nominal cycle is the least number of whole ticks that covers it, the tolerance the least that covers one and a half |
| CycleCounter.OneLossNeverFlagged | slave/src/l2_handler.rs:243-259 | from 250 microseconds on, a nominal tick advance of one or two cycles is never flagged |
| CycleCounter.ReportedLoss | slave/src/l2_handler.rs:243-259 | at a nominal tick advance of m + 1 cycles, m >= 2, within half the range the report is m plus the number of wraps of the sender's counter, which is 0 or 1 |
| CycleCounter.TwoCyclesApartNeverFlagged | slave/src/l2_handler.rs:243-259 | from 250 microseconds on, stamps taken exactly two cycles apart are within tolerance, for every clock value |
| CycleCounter.GapReport | slave/src/l2_handler.rs:243-259 | for any two tick counts and every cycle time the report judges their distance beyond one cycle plus the sender's wraps, modulo 65536 |
| CycleCounter.ReportExactIff | common/src/l2_utils.rs:82-102 | by the clock, for every clock value and m >= 2 lost frames: the report is m if and only if the distance beyond one cycle, with the wraps, is above the tolerance, within half the range and in the m-th nominal cycle |
| CycleCounter.NominalExactIff | slave/src/l2_handler.rs:243-259 | at a nominal tick advance of m + 1 cycles, m >= 2, the report is m if and only if the gap is within half the range and the sender's counter did not wrap |
| CycleCounter.WholeCycleExactIff | common/src/l2_utils.rs:82-95 | for cycle times of whole multiples of 125 microseconds the clock advances nominally, and the same condition holds by the clock |
| CycleCounter.UndercountExample | slave/src/l2_handler.rs:252-253 | 100 frames lost at 260 microseconds are reported as 93 |
| CycleCounter.UnflaggedIff | slave/src/l2_handler.rs:247-251 | any two stamps go unflagged if and only if their distance comes round to within the tolerance |
| CycleCounter.FullTurnExample | slave/src/l2_handler.rs:247-251 | 8192 lost frames of the shortest cycle are not flagged, at any time |
| CycleCounter.LongGapReportsOne | slave/src/l2_handler.rs:252-256 | at a nominal tick advance beyond half the range and short of a full turn a single missed cycle is reported |
| L2Receiver.Receiver.Iterate | slave/src/l2_handler.rs:168-283 | one loop iteration is the step function `Receive` on store, locals, image and outcome, for slave and master gating; what it accepts, writes, reports and when it ends is said by `AcceptedIff`, `AppliedIff`, `SlaveStatus` and `RunsIff` |
| L2Receiver.Receiver.OnFrame | slave/src/l2_handler.rs:192-227 | parse, lookup and authentication in the order of the code, with the status each failure reports |
| L2Receiver.Receiver.OnCycle | slave/src/l2_handler.rs:243-261 | the 16-bit wrapping comparison equals `MissedCycles`, and the stamp is remembered in any case |
| L2Receiver.Receiver.InputPacket | common/src/l2_utils.rs:19-44 | writes exactly the leading bytes of the payload that the field needs, or refuses and changes nothing |
| L2Sender.Sender.Tick | slave/src/l2_handler.rs:343-434 | one tick equals `SendAll` over the streams in order: due check, interval record, compose, tag, build, and the status when the channel refuses the frame; the thread ends when the state is neither Op nor SafeOp, or at a stream whose destination has fewer than six octets |
| L2Sender.Sender.Transmit | slave/src/l2_handler.rs:388-422 | a built frame parses with the configured destination and VLAN and the sender's own address; a failed read travels as error status with empty payload; number and tag are taken from the store, which moves on by one; a short destination panics before the store is touched |
| Wire.SentLayout | slave/src/l2_handler.rs:388-422 | a sent frame byte by byte: addresses, VLAN, version 1, stream id, the clock's tick count modulo 65535, status 0 exactly when the output was read |
| Wire.L2Layout | common/src/l2_types.rs:140-160 | the offset of every field of an L2 frame, in plain numbers |
| Wire.SdcpLayout | common/src/discovery_types.rs:126-143 | the offset of every field of an SDCP frame and the operation codes, in plain numbers |
| Wire.DeviceInfoLayout | common/src/discovery_types.rs:258-270 | the bytes of a device info TLV |
| Wire.IpConfigLayout | common/src/discovery_types.rs:272-282 | the bytes of an IP configuration TLV |
| Wire.IpReportLayout | common/src/discovery_types.rs:295-306 | the bytes of an IP report TLV, with the codes of the IP sources |
| Wire.StatusReportLayout | common/src/discovery_types.rs:284-293 | the bytes of a status report TLV, with the values of the status codes |
| Schedule.SentExactlyAtMultiples | slave/src/l2_handler.rs:343-434 | with an ideal clock at the base cycle and an unchanged state, the frames of a tick are exactly one of each stream whose cycle time divides the elapsed time, in order, unless the channel refuses it, and exactly those streams' counters move on; a stream with cycle time zero is sent in every tick |
| Schedule.EveryMultipleIsATick | slave/src/l2_handler.rs:322-327 | every multiple of a cycle time falls on a tick, so no send is late |
| Schedule.IntervalsCoverCycles | slave/src/l2_handler.rs:358-386 | with any monotone clock each recorded interval is at least its stream's cycle time, the metrics are those of the intervals, the jitter that of their excess, and the status shows the metrics |
| Schedule.RecordedExactly | slave/src/l2_handler.rs:369-386 | with an ideal clock in Op every send but a stream's first is recorded, with exactly its cycle time; in SafeOp nothing is |
| Schedule.ChangeSendsAll | slave/src/l2_handler.rs:348-351 | after a change of state every stream is due at once |
| Schedule.ReportedMinimum | slave/src/l2_handler.rs:369-386 | up to 2^64 - 1 records, the minimum in the status is at least the shortest recorded cycle time, and minimum <= mean <= maximum |
| Gcd.GcdU32 | common/src/l2_utils.rs:62-69 | the Euclid loop ends, and the divisors of the result are exactly the common divisors |
| Gcd.GcdAll | common/src/l2_utils.rs:71-80 | the divisors of the result are exactly the numbers dividing all values; zero for none |
| Gcd.BaseCycle | slave/src/l2_handler.rs:322-327 | the base divides every positive cycle time and is the greatest number that does; one when there is none |
| CycleMetrics.ValuesExact | common/src/l2_utils.rs:127-145 | up to 2^64 - 1 records: exact minimum, maximum and floored mean, min <= mean <= max, no saturation or truncation |
| CycleMetrics.CycleMetrics.RecordCycle | common/src/l2_utils.rs:128-133 | a record updates the four fields as `Record` does |
| BitField.ReadBack | slave/src/hardware_mock.rs:208-281 | a field that was just written holds the written bits |
| BitField.ReadElsewhere | slave/src/hardware_mock.rs:244-281 | a write leaves every disjoint field as it was |
| BitField.WritesCommute | slave/src/hardware_mock.rs:244-281 | writes to disjoint fields commute |
| BitField.ByteCopyReads | slave/src/hardware_mock.rs:220-222 | the byte-copy read of an aligned field equals the bit-level read |
| BitField.ByteCopyWrites | slave/src/hardware_mock.rs:256-259 | the byte-copy write of an aligned field equals the bit-level write |
| ProcessImage.BoundsCheck | slave/src/hardware_mock.rs:209-218 | the saturating bounds check passes exactly when the bit range fits, and then no addition overflowed |
| ProcessImage.ProcessImage.Read | slave/src/hardware_mock.rs:208-242 | returns exactly the bits of the field, padded with zeros, or fails exactly when the field does not fit |
| ProcessImage.ProcessImage.GatherBits | slave/src/hardware_mock.rs:224-238 | the bit loop reads bits 8 * byte_offset + bit_offset + i for i < bit_len, with zero padding |
| ProcessImage.ProcessImage.Write | slave/src/hardware_mock.rs:244-281 | writes exactly the bits of the field, or fails and changes nothing |
| ProcessImage.ProcessImage.BitLoop | slave/src/hardware_mock.rs:261-277 | setting and clearing bit by bit equals the bit-level write |
| ProcessImage.ProcessImage.CopyBytes | master/src/hardware_mock.rs:73-90 | copying whole bytes equals the bit-level write of all their bits |
| StreamStore.EntriesSpec | common/src/stream_store.rs:71-105 | the inserted entries have exactly the given ids as keys, each with its configuration and initial counter |
| StreamStore.CheckInsertable | common/src/stream_store.rs:71-88 | passes if and only if all ids and directions are usable and no id occurs twice |
| StreamStore.StreamStore.AddStreamConfig | common/src/stream_store.rs:49-69 | inserts if and only if the configuration is usable and its id free; otherwise nothing changes |
| StreamStore.StreamStore.AddStreamConfigs | common/src/stream_store.rs:71-105 | an unusable list changes nothing; otherwise exactly the entries before the first taken id are inserted, and success means all of them |
| StreamStore.PartialInsertExample | common/src/stream_store.rs:89-102 | a list that is rejected after its first entry was inserted |
| StreamStore.RejectedInsertUnchangedIff | common/src/stream_store.rs:71-105 | a rejected insertion changes nothing if and only if the list is unusable in itself or its first id is the taken one |
| StreamStore.StreamStore.GenerateStreamTag | common/src/stream_store.rs:142-168 | returns the current number and the tag over header, payload and number, and advances the counter, saturating |
| StreamStore.StreamStore.ValidateStreamTag | common/src/stream_store.rs:170-208 | accepts exactly a higher number with the right tag and stores it; otherwise nothing changes |
| StreamStore.ResetReadmits | common/src/stream_store.rs:41-47 | a frame once accepted is refused afterwards, and accepted again after a reset and new configuration |
| SlaveApi.ValidateStreams | slave/src/slave_api.rs:350-394 | succeeds if and only if every stream is valid against the layout and ids are distinct |
| SlaveApi.ValidatedStreamsInsert | slave/src/slave_api.rs:350-394 | validated streams can never make the insertion fail |
| SlaveApi.SlaveApiService.ConfigureStreams | slave/src/slave_api.rs:282-318 | replaces the whole store or leaves it unchanged; replaces exactly in PreOp with a readable layout and valid streams; every refusal has its code |
| SlaveApi.ConfiguredStore | slave/src/slave_api.rs:282-318 | afterwards the keys are the requested ids, with counter 1 for outputs and 0 for inputs |
| StateMachine.DeviceStateManager.SetTargetState | common/src/state_machine.rs:70-141 | succeeds if and only if the life cycle grants the step: stay, fail, one rung up, one rung down from Op or SafeOp, shut down from either, or restart after a failure; on refusal nothing changes |
| StateMachine.FollowedIffGranted | common/src/state_machine.rs:70-141 | in every run a request is followed if and only if the life cycle grants it; a refused one changes nothing |
| StateMachine.OpIsEarned | common/src/state_machine.rs:70-141 | in every run each entry into Op comes from SafeOp and follows DiscoverySync then PreOp since the latest Init |
| StateMachine.EntriesAndExits | common/src/state_machine.rs:122-139 | Init is re-entered only from Error; Shutdown is left only to Error, exactly when Error is requested |
| StateMachine.ShutdownIsLeftExample | common/src/state_machine.rs:130-134 | a run that reaches Shutdown and leaves it |
| L2Frame.BuildL2Frame | common/src/l2_types.rs:140-160 | the built bytes are addresses, VLAN tag, ethertype, header, payload and footer in this order |
| L2Frame.ParseBuild | common/src/l2_types.rs:140-202 | parsing a built frame returns every field, for any payload length |
| L2Frame.BuildParseTagged | common/src/l2_types.rs:162-202 | rebuilding an accepted VLAN-tagged frame gives back the same bytes |
| L2Frame.BuildParseUntagged | common/src/l2_types.rs:162-202 | rebuilding an accepted untagged frame inserts a zero VLAN tag and nothing else |
| L2Frame.AcceptsIff | common/src/l2_types.rs:162-202 | the parser accepts exactly the byte strings with the ethertype and room for header and footer |
| L2Frame.RefusedBecause | common/src/l2_types.rs:162-202 | a refused byte string is of another protocol or too short, told apart by lengths and ethertypes |
| L2Frame.HeaderReadWrite | common/src/l2_types.rs:94-126 | reading a written header returns it |
| L2Frame.HeaderWriteRead | common/src/l2_types.rs:94-126 | writing a read header gives back its seven bytes |
| L2Frame.SerializersAgree | common/src/stream_store.rs:211-221 | the serializer used for the tag equals the one used on the wire |
| L2Frame.TagCoverage | common/src/stream_store.rs:157-164 | the tagged bytes are the frame from offset 18 to 8 before its end |
| L2Frame.TaggedBytesInjective | common/src/stream_store.rs:157-164 | the tagged bytes determine header, payload and number |
| AuthFooter.SplitAppend | common/src/security/auth_footer.rs:17-50 | splitting a payload with its footer returns both |
| AuthFooter.AppendSplit | common/src/security/auth_footer.rs:23-50 | splitting succeeds if and only if there is room for a footer, and appending the parts again gives back the bytes |
| Crypto.CalculateHmac | common/src/security/crypto.rs:13-27 | only the concatenation of the parts matters |
| Crypto.VerifyHmac | common/src/security/crypto.rs:29-38 | the accumulated difference is zero if and only if the tags are equal |
| SdcpCodec.SdcpHeaderReadWrite | common/src/discovery_types.rs:126-158 | reading a written header returns it, whatever follows |
| SdcpCodec.SdcpHeaderWriteReadIff | common/src/discovery_types.rs:74-158 | writing a read header gives back the five bytes if and only if the opcode byte is 1 to 9 |
| SdcpCodec.TlvRoundTripIff | common/src/discovery_types.rs:244-336 | a TLV survives the wire if and only if its value has at most 255 bytes |
| SdcpCodec.DeviceInfoRoundTrip | common/src/discovery_types.rs:258-356 | a device info TLV round-trips |
| SdcpCodec.IpConfigRoundTrip | common/src/discovery_types.rs:272-378 | an IP configuration TLV round-trips |
| SdcpCodec.StatusReportRoundTrip | common/src/discovery_types.rs:284-389 | a status report TLV round-trips |
| SdcpCodec.IpReportRoundTrip | common/src/discovery_types.rs:295-410 | an IP report TLV round-trips |
| SdcpCodec.SdcpPayloadRoundTrip | common/src/discovery_types.rs:423-441 | header, TLV bytes and footer come back from the assembled payload |
| SdcpCodec.SdcpFrameRoundTrip | master/src/discovery.rs:369-426 | a built SDCP frame parses back to every part of it |
| SdcpCodec.SdcpSerializersAgree | common/src/security/discovery_auth.rs:160-168 | the serializer used for the tag equals the one used on the wire |
| SdcpCodec.SdcpTagCoverage | common/src/security/discovery_auth.rs:75-98 | the tagged bytes are the frame from offset 14 to 8 before its end |
| SdcpCodec.SdcpTaggedBytesInjective | common/src/security/discovery_auth.rs:75-98 | the tagged bytes determine header, TLV payload and number |
| DiscoveryAuth.DiscoveryAuthHandler.CreateAuthTag | common/src/security/discovery_auth.rs:75-98 | returns the device's current number with its tag and advances it, saturating; nothing for an unknown device |
| DiscoveryAuth.DiscoveryAuthHandler.ValidateAuthTag | common/src/security/discovery_auth.rs:100-134 | accepts exactly a higher number with the right tag of a known device and stores it |
| DiscoveryAuth.DiscoveryAuthHandler.ValidateDiscoveryResponse | common/src/security/discovery_auth.rs:139-157 | accepts exactly number one with the right tag |
| DiscoverySlave.DiscoveryListener.Iterate | slave/src/discovery.rs:76-124 | one iteration of the listener is the step function `Listen`, answers included |
| DiscoverySlave.DiscoveryListener.Handle | slave/src/discovery.rs:144-208 | nothing happens without authentication; otherwise the reaction of the opcode |
| DiscoverySlave.DiscoveryListener.HandleSetIp | slave/src/discovery.rs:307-402 | apply, read, write, answer, then PreOp, each failure answered with its code and without the later effects |
| DiscoverySlave.DiscoveryListener.SendResponse | slave/src/discovery.rs:434-482 | the answer is numbered and tagged with the slave's own counter |
| DiscoveryMaster.Master.BuildRequestFrame | master/src/discovery.rs:369-426 | the request is numbered from the master's one counter, whatever the destination |
| DiscoveryMaster.Master.WaitForResponse | master/src/discovery.rs:459-528 | equals `WaitAll` over everything the channel yields until the timeout |
| DiscoveryMaster.WaitEndsWithFirstAnswer | master/src/discovery.rs:472-522 | the call ends with the payload of the first frame that is an authentic one of the target with the opcode and transaction id and a fresh number, whatever comes before it, and with a timeout exactly when there is none |
| SdcpCalls.WaitIsRun | master/src/discovery.rs:459-528 | a waiting call is a run of hearing frames that ends with the answer, or with giving up after all of them; result and contexts are those of the run |
| SdcpCalls.DiscoverIsRun | master/src/discovery.rs:193-231 | a discovery is a run of hearing every frame; contexts and cache are those of the run |
| DiscoveryMaster.Master.SetIpConfig | master/src/discovery.rs:306-363 | sends one request with a fresh transaction id and succeeds exactly when its answer reports no error |
| DiscoveryMaster.Master.GetIpConfig | master/src/discovery.rs:252-282 | sends one request with a fresh transaction id and returns the report in its answer; a failed send leaves the counters moved on and nothing else |
| DiscoveryMaster.Master.DiscoverDevices | master/src/discovery.rs:169-232 | cache, contexts and result are those of folding all received frames in order; every attempt uses up a transaction id |
| DiscoveryMaster.Master.ProcessDiscoverFrame | master/src/discovery.rs:534-590 | one received frame is the step `DiscoverStep` |
| DiscoveryMaster.CacheFromFrames | master/src/discovery.rs:193-231 | for any sequence of received frames a MAC's entry is that of its last accepted response, or, when none was accepted, what it was before |
| DiscoveryMaster.NewcomersExact | master/src/discovery.rs:193-231 | the returned MACs are pairwise distinct and equal the new cache keys minus the old ones |
| DiscoveryMaster.NewcomersFirst | master/src/discovery.rs:193-231 | each returned device is as its MAC's first accepted response announced it |
| DiscoveryMaster.FindsIff | master/src/discovery.rs:534-590 | in any sequence of received frames the i-th finds a device if and only if it is an authentic response of this transaction that describes it, numbered one without a context and above the last number with one, after the frames before it |
| DiscoveryMaster.AdmittedOnlyByFirst | common/src/security/discovery_auth.rs:139-157 | over any sequence of received frames a MAC without context gains one only by an authentic response numbered one |
| DiscoveryMaster.ContextsGrow | common/src/security/discovery_auth.rs:100-134 | over any received frames the last accepted number never falls and the transmit counter stays |
| SdcpSafety.StepInv | slave/src/discovery.rs:144-208 | every request, delivery, timeout, state request and restart keeps: requests numbered by count, answers backed by acts, each slave's counter that of its last act |
| SdcpSafety.ActsAreSubsequence | common/src/security/discovery_auth.rs:75-134 | although one counter serves all destinations, in every run the requests a slave acts on are a subsequence of the master's, none acted on twice |
| SdcpSafety.FirstRequestsDoNotReuse | master/src/discovery.rs:140-142 | no transaction id repeats within the first 65536 requests |
| SdcpResults.SetIpAnswer | slave/src/discovery.rs:318-378 | the answer reads as success if and only if the configuration was applied and stored, or the device info failed with code "no error"; otherwise as a hardware error |
| SdcpResults.HiddenFailureExample | slave/src/discovery.rs:349-363 | a failed device-info write that the master reads as success |
| SdcpResults.SetIpConfirmed | master/src/discovery.rs:459-528 | when an answer is taken and no earlier request that could be confused with the pending one had its transaction id, the target acted on exactly this request, once; the call succeeds if and only if that act applied and stored the configuration or hid a failure, and when applied the target holds exactly this configuration |
| SdcpResults.SetIpConfirmedInRuns | master/src/discovery.rs:306-363 | the same in every run from the start, under any loss, duplication, reordering and hardware failure; at most 65536 requests rule out confusion |
| SdcpResults.GetIpAnswer | slave/src/discovery.rs:246-304 | a get-IP answer reads as the report of the device info if and only if that could be read |
| SdcpResults.ReportFields | slave/src/discovery.rs:280-299 | the report field by field: address, netmask, gateway and source of the device info, with the defaults for fields that are not four octets |
| SdcpResults.IdentityFields | slave/src/discovery.rs:404-432 | a discovery response tells vendor, device and serial number, all zero when the device info cannot be read |
| SdcpResults.ConfigsStay | slave/src/discovery.rs:346-361 | over every run a slave's device info holds the address, netmask and gateway that it applied and stored last |
| SdcpResults.GetIpReturnsLastConfig | master/src/discovery.rs:252-282 | over every run an answered get-IP call returns exactly the configuration that the target applied and stored last, once there is one |
| SdcpResults.ListensIff | slave/src/discovery.rs:76-124 | over every run a slave listens if and only if it listened at the start or was restarted and every snapshot since was DiscoverySync |
| SdcpResults.GetIpReportedInRuns | master/src/discovery.rs:252-282 | in every run, under the same condition on transaction ids, the returned report is that of the target's device info at its one act on this request, which is still its device info |
| SdcpResults.DiscoveredAreSlaves | master/src/discovery.rs:193-231 | in every run each entry the cache gained or changed is a slave that acted on a discovery request, with the identity its device info gave |
| SdcpResults.PreOpOnlyAfterApply | slave/src/discovery.rs:318-378 | discovery changes a slave's state only to PreOp, in a step that took a request of the master and applied and stored its configuration |
| SdcpExchange.SlaveAnswers | slave/src/discovery.rs:144-208 | a listening slave that has accepted nothing as high takes an authentic request, acts on it and answers with an authentic frame numbered by its own counter |
| SdcpExchange.SetIpCompletesIff | master/src/discovery.rs:306-363 | a loss-free exchange with a slave that is ready for the request, for every outcome of its hardware: confirmed if and only if the slave's counter is above the last number the master accepted from it and the hardware worked or hid its failure; applied and stored whenever it worked |
| SdcpExchange.ExchangeLeaves | slave/src/discovery.rs:307-402 | for every outcome of the hardware: only a set-IP request touches the slave; the interface takes the configuration whenever applying succeeds, device info and PreOp only when reading and writing succeed as well |
| SdcpExchange.GetIpCompletesIff | master/src/discovery.rs:252-282 | a loss-free exchange is answered if and only if the slave's counter is above the last number the master accepted from it, with the report if and only if the device info could be read |
| SdcpExchange.DiscoverCompletesIff | master/src/discovery.rs:534-590 | a loss-free discovery finds a ready slave, with its identity, if and only if its counter is at one when the master has no context for it, and above the last accepted number otherwise |
| SdcpExchange.ConfirmedRunExists | master/src/discovery.rs:306-363 | from every fresh system in which the master accepted nothing from the target, asking and answering is a run that ends with an answer whose delivery confirms the assignment |
| SdcpExchange.StaleConfirmationExample | master/src/discovery.rs:140-142 | a run of 65537 requests in which the late answer to the first assignment confirms the last one, which the slave never saw |

## Left out

- Raw sockets, channels, threads, sleeps and real clocks: they are inputs of the steps.
- BLAKE3, SHA-256, random tokens and secret loading: the keyed hash is a parameter; a token check is one boolean input.
- gRPC client and server plumbing, status streaming, the token store and the status log: thin wrappers around what is modelled.
- Receive-interval and jitter metrics of the receiver loop: the same accumulator as on the sending side; they influence nothing else.
- The master's sender re-reads the state before each stream and keeps its own status texts; `Sender.Tick` models the slave's loop, and sends of a master in `L2Network` are single `Send` events.
- L2Receiver.Receiver.Iterate: the slave reads its state from the status store, which mirrors the state manager; the snapshot is an input here.
- CycleCounter.OneCycleApartNeverFlagged: the f64 computation of the tolerance is modelled as the integer ceil(3c / 62500), to which it is equal for every u32 cycle time c >= 1.
- SdcpResults.SetIpConfirmed: nothing is claimed once an earlier request with the same opcode and target had the same transaction id; `SdcpExchange.StaleConfirmationExample` shows why.
- That discovery succeeds when retried: an unknown device is admitted only by its first response, so it need not.
- Ethernet minimum-length padding: the footer is taken from the end of the frame, so the round trips are for unpadded frames.
- The master's process image ignores the bit offset; comparisons between a master and a slave field are about the bits each side addresses.
- Lock poisoning and interleavings inside a locked method.
- Demo programs, logging and shell commands.
