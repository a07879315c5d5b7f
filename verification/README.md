# The USB mux transport and the MQTT bridge, verified

A Dafny 4.11 model of two parts of matter-thread2mqtt, with proofs.

**The mux transport** carries Bluetooth HCI, Spinel, logs and pings over one raw USB byte stream, as
frames `[type][len u16 LE][payload]["/mt2mqtt\0"]`. Three reassemblers work in place on fixed buffers,
each by its own rules: the host's validates the tail and resyncs on it, the firmware's trusts the
length and never looks at the tail, and behind the firmware's sits one that rebuilds H4 packets. Around
them run several tasks: writers under one mutex, a droppable queue, a ring buffer, a bounded packet
queue and a controller with flow control.

**The MQTT bridge** keeps a device table, one attribute subscription per node and debounced
publications in step with a live cache, and plans the writes of a `set` request so that they mean on
the device what the request says.

Buffers, tables and queues that the source updates in place are classes (`HostDriver`, `MuxRx`, `BtRx`,
`Bridge`) whose methods are proved against functions or relations on values; the theorems are about
those. Tasks that interleave are state machines: a blocking call is a guard, a timeout is a write that
may stop short, and every theorem holds for every interleaving.

| file | content |
|---|---|
| `Bytes.dfy`, `MuxWire.dfy` | bytes; the frame, streams of frames, where a tail can occur |
| `HostParser.dfy`, `HostRoundTrip.dfy`, `HostResync.dfy`, `HostInStep.dfy`, `HostDriver.dfy` | the host's reassembler: soundness, exact delivery, resync by one read and over whole runs, the driver |
| `FwDemux.dfy`, `MuxRx.dfy` | the firmware's frame parser |
| `Hci.dfy`, `H4.dfy`, `BtRx.dfy` | HCI packets by their fields and their H4 encoding (Bluetooth Core Specification, Vol 4 Part A section 2, Part E section 5.4); their reassembly |
| `HostToController.dfy`, `RxLoops.dfy` | read loop, frame parser, packet reassembler and controller task together; that they are the reassemblers proved in place |
| `MuxTx.dfy`, `FrameOut.dfy`, `ToHost.dfy` | the writers, frame assembly, and firmware to host |
| `EndToEnd.dfy` | Spinel and Bluetooth from source to sink |
| `Lights.dfy`, `WriteOrder.dfy`, `SetRequest.dfy` | a `set` request, from payload to light |
| `DeviceTable.dfy`, `BridgeRuns.dfy`, `Bridge.dfy` | the bridge's state over connects, events, timers and requests; runs that end wrong |
| `Naming.dfy`, `Topics.dfy` | property names and the published schema; topics |

## Where the code does not do what is said of it

- The host's comments promise that a partial tail kept at the end of the buffer can match on the next
  read (`fw/host_driver/host.c:350-351`). The next search starts one byte past the head of the buffer, so
  a kept partial tail of exactly eight bytes is missed. `HostResync.NeverRecoversFromStart` gives a run,
  of any length, on the bytes of a clean stream entered in the middle of a frame, that never dispatches
  anything. `HostResync.ResyncExact` gives the exact condition for one read to recover, whatever the
  garbage: a whole clean frame has arrived, or the frames and tails inside the garbage use it up, or (by
  accident) exactly eight clean bytes follow a rejected header. `HostInStep.RunExact` lifts that to runs:
  the host is in step if and only if one of its reads recovered.
- A `get` keeps the device it resolved across its awaits. If the node is renamed meanwhile and another
  takes its name, it publishes its own view on the other's topic and nothing corrects it:
  `BridgeRuns.RenamedGet`. The same happens with an old view if a read outlives its connection:
  `BridgeRuns.StaleGet`. Just before it ends one can tell: `DeviceTable.Safe` looks only at the names,
  views, pending flushes and connection of that moment. `EndGetExact` shows that the topics stay right
  whatever the get answers if and only if it is safe, and `ExactlySafe` the same for whole runs.
- Devices and the bridge itself share one topic space, and a name may contain slashes. The availability
  topic of a validly named device is itself a valid name (`Topics.AvailabilityIsName`), and so is
  `bridge/event` (`Topics.OwnIsName`). Off the bridge's own topics, every device topic ends with the right
  state or availability if and only if no name in the cache is another's availability topic
  (`DeviceTable.NothingLost`); `BridgeRuns.CollidingNames` is a run in which one is, with two valid names
  (`Topics.LampIsName`). The bridge's own messages do no harm if and only if no device has its topic among
  theirs (`DeviceTable.OwnExact`); `BridgeRuns.OwnTopicTaken` is a run in which one has.
- The comments on the order of writes speak of colour set before ON being lost
  (`mqtt_bridge/bridge.py:311-312`). The same happens without a `state`: on a light that is off, a colour
  ahead of a brightness is dropped, and the same payload the other way round keeps it
  (`SetRequest.PayloadOrderMatters`). `WriteOrder.TakesExactly` says when such a request does all it asks
  for: the light is on, nothing is asked, or `with_on_off` holds and a brightness comes first.
- A remark in `mqtt_bridge/devices.py:352-353` says that a device with MinLevel 0 accepts brightness 0.
  `MIN_LEVEL or 1` makes that minimum 1 (`mqtt_bridge/devices.py:333`), so it does not:
  `SetRequest.BrightnessAtLeastOne`.

## Model

| member | source | states |
|---|---|---|
| MuxWire.FrameBytes | fw/main/mux.c:87-96 | a frame is its type, the payload length low byte first, the payload, and "/mt2mqtt" with its NUL; the types are 4 to 8 |
| MuxWire.HeaderOf | fw/host_driver/host.c:290-297 | type, length, payload and tail can be read back from a frame whatever follows it |
| MuxWire.TailEndsFrame | fw/host_driver/host.c:29-36 | in a clean frame the tail occurs at the end and nowhere else: not in the header, not in the payload, not overlapping the real tail |
| MuxWire.TailNotAcrossBoundary | fw/host_driver/host.c:62-72 | no tail straddles the start of a clean stream, because no type byte occurs in it |
| MuxWire.PartialIsTailFree | fw/host_driver/host.c:333-339 | a frame that is still incomplete shows no tail, so it is waited for |
| MuxWire.SplitUnique | fw/host_driver/host.c:269-278 | a prefix of a stream is whole frames and one partial frame in exactly one way |
| HostParser.AfterTail | fw/host_driver/host.c:269-277 | the first tail at or after the start, or none at all |
| HostParser.Judge | fw/host_driver/host.c:289-365 | a delivered frame is literally at the head of the buffer; a realignment lands just behind a tail; waiting or dropping happens only without a tail ahead |
| HostParser.ParseConserves | fw/host_driver/host.c:287-366 | on any bytes, one call's dispatched frames, skipped bytes and remainder are the buffer, in order |
| HostParser.ReadsConserve | fw/host_driver/host.c:466-487 | over any run on any bytes: received == dispatched + skipped + discarded + still buffered, in the order received |
| HostParser.ParseRest | fw/host_driver/host.c:333-360 | what is kept shows no tail; the buffer ends a call full only if the header at its head claims 4085 to 4096 bytes |
| HostParser.AlwaysRoom | fw/host_driver/host.c:468-471 | on every stream the buffer never overflows and every read has at least one byte of room |
| HostRoundTrip.ParseStream | fw/host_driver/host.c:287-332 | whole clean frames and a partial one: all dispatched in order, the partial one kept, nothing skipped |
| HostRoundTrip.CleanReads | fw/host_driver/host.c:466-487 | from any boundary, every cutting of a clean stream into reads delivers it exactly and ends on a boundary |
| HostRoundTrip.RoundTrip | fw/host_driver/host.c:287-366 | round trip: for every sequence of clean frames and every chunking, exactly the frames that have arrived whole, in order, once each; all of them once all bytes are there |
| HostResync.Resync | fw/host_driver/host.c:346-363 | from any garbage, one call that sees one whole clean frame behind it ends on a true boundary and delivers exactly the frames from j on; what comes before is exactly the garbage and the first j frames, and j is at most 1 unless a frame dispatched from the garbage reaches across the boundary |
| HostResync.ResyncRun | fw/host_driver/host.c:466-487 | the same for that read, and every later chunking adds exactly the frames completed since, in order |
| HostResync.ResyncExact | fw/host_driver/host.c:333-360 | for any garbage and any clean bytes behind it: one read puts the head on a boundary if and only if a condition on the buffered bytes holds |
| HostResync.ResidueFollowsLastTail | fw/host_driver/host.c:346-360 | the garbage left over is what follows its last tail, unless that tail is at the very head or adjoins another |
| HostResync.HeadHopeless | fw/host_driver/host.c:346-360 | with no tail ahead nothing is dispatched, and bytes are given up only behind a rejected header, all but the last eight |
| HostResync.NeverRecovers | fw/host_driver/host.c:347-357 | recovery is not unconditional: reads that each end one byte before a frame's end dispatch nothing, for ever |
| HostResync.LateReadsAreClean | fw/host_driver/host.c:347-357 | those reads are a cutting of a clean stream |
| HostResync.JoinedMidFrame | fw/host_driver/host.c:349-358 | one read in the middle of a frame leads into that state |
| HostResync.NeverRecoversFromStart | fw/host_driver/host.c:347-357 | the whole run from an empty buffer: possible reads, bytes of a clean stream from the middle of a frame on, and never a frame dispatched |
| HostInStep.RunExact | fw/host_driver/host.c:466-487 | over any run from any buffer: the head is on a boundary of the clean stream if and only if some read so far recovered by its own garbage and clean bytes |
| HostInStep.InStepDelivers | fw/host_driver/host.c:466-487 | from then on exactly the frames ahead are delivered, under every chunking |
| HostMain.HostDriver.constructor | fw/host_driver/host.c:396-397 | starts with an empty buffer |
| HostMain.HostDriver.TailMatches | fw/host_driver/host.c:273-273 | the byte comparison decides whether a tail is there |
| HostMain.HostDriver.FindAfterTail | fw/host_driver/host.c:269-277 | the scan loop finds the first tail |
| HostMain.HostDriver.ProcessFrames | fw/host_driver/host.c:287-366 | the in-place loop does to the buffer exactly what the theorems are about |
| HostMain.HostDriver.OnDeviceReadable | fw/host_driver/host.c:466-487 | reset, read, parse and shift in place refine one read of the model |
| HostMain.HostDriver.WriteAll | fw/host_driver/host.c:141-155 | however many pieces it takes, all bytes are written or, if the device fails first, exactly those it took; success is reported exactly in the first case |
| HostMain.HostDriver.SendFrame | fw/host_driver/host.c:157-168 | the three writes put one frame on the wire, or the part of it the device still took, and success is reported exactly for a whole frame |
| HostMain.HostDriver.OnVhciReadable | fw/host_driver/host.c:431-443 | each H4 packet becomes one BT frame, one that begins with 0xff none; the loop ends exactly when the frame was not written whole |
| HostMain.HostDriver.OnPtyReadable | fw/host_driver/host.c:450-458 | each PTY read becomes one Spinel frame; the loop ends exactly when it was not written whole |
| HostMain.InputFrames | fw/host_driver/host.c:399-458 | a ping is a PING saying "PING", a packet of the kernel a BT frame unless it begins with 0xff, a chunk of the PTY a Spinel frame |
| HostMain.HostDriver.Serve | fw/host_driver/host.c:399-458 | the sending loop puts the frames of its inputs on the wire in order, up to where the device fails, and ends exactly then |
| FwDemux.StagingBound | fw/main/mux.c:206-240 | on every stream the staging buffer has room at each receive |
| FwDemux.ExactReceives | fw/main/mux.c:201-241 | from any boundary, every cutting delivers the frames exactly |
| FwDemux.DemuxExact | fw/main/mux.c:201-241 | frames of up to 1024 bytes with any payload at all, under every chunking: exactly those frames, in order, though the tail is never inspected |
| FwDemux.FlushedByLength | fw/main/mux.c:217-224 | an impossible length costs all that is staged from there on and no frame before it |
| FwDemux.ChannelsSeparate | fw/main/mux.c:173-197 | each channel receives its own payloads in order whatever is interleaved; every SYNC is answered by "mt2mqtt sync" and every PING by "PONG", in order |
| MuxRxTask.MuxRx.constructor | fw/main/mux.c:203-204 | starts with nothing staged |
| MuxRxTask.MuxRx.DemuxFrame | fw/main/mux.c:173-197 | one frame goes to its channel and to no other |
| MuxRxTask.MuxRx.Receive | fw/main/mux.c:206-240 | receive, in-place parse and shift refine the model's step and keep the staging bound |
| Hci.EncodeShape | fw/main/app_bt.c:96-113 | each of the four packets is its header and its body, told apart by the indicators 1 to 4 |
| Hci.KnownPackets | fw/main/app_bt.c:98-111 | HCI Reset and an ACL packet, byte by byte |
| H4.AccBound | fw/main/app_bt.c:124-161 | on every stream at most 521 bytes stay accumulated between calls |
| H4.LenOfEncoding | fw/main/app_bt.c:96-113 | for every HCI packet by its fields, whatever follows: the length read is that of its encoding as soon as the header is there, and 0 before |
| H4.EncodingsExactly | fw/main/app_bt.c:96-113 | the bytes that are as long as their own header says are exactly the encodings of HCI packets |
| H4.PktLenOfPrefix | fw/main/app_bt.c:96-113 | a packet's header yields its length as soon as it is there, and nothing before, whatever follows |
| H4.ReassembleStream | fw/main/app_bt.c:133-156 | any prefix of encoded HCI packets yields the whole ones and keeps the rest |
| H4.FlushedByHeader | fw/main/app_bt.c:137-142 | an unknown indicator, or a header announcing more than 522 bytes, costs all that is accumulated from there on and no packet before it |
| H4.OverflowRule | fw/main/app_bt.c:124-131 | a chunk that does not fit costs what is accumulated and is taken as if first; one over 2048 bytes is lost |
| H4.H4Exact | fw/main/app_bt.c:115-162 | HCI packets of up to 522 bytes, encoded and re-split into chunks of up to 1527 bytes, come out exactly as they went in |
| BtRxFromHost.BtRx.constructor | fw/main/app_bt.c:118-119 | starts empty |
| BtRxFromHost.BtRx.HeaderAt | fw/main/app_bt.c:98-113 | the header branches compute the model's packet length |
| BtRxFromHost.BtRx.PacketLoop | fw/main/app_bt.c:133-156 | the packet loop queues exactly the model's packets and stops where it does |
| BtRxFromHost.BtRx.RxFromHost | fw/main/app_bt.c:117-162 | overflow rule, copy, loop and shift in place refine the model's step and keep the 521-byte bound |
| HostToController.BoundsKept | fw/main/mux.c:206-240 | on every stream and interleaving all five buffers keep their bounds, and the H4 overflow flush is never used |
| HostToController.StepKeeps | fw/main/app_bt.c:166-177 | every step of every task keeps conservation, the bounds and the wake-up property |
| HostToController.Lossless | fw/main/app_bt.c:117-177 | for every interleaving, sent ++ held ++ queued ++ still in flight == the packets the host framed; a packet is sent only while the controller is available; `bt_to_ctrl_task` never waits for a wake-up that has come and gone |
| HostToController.StepDecreases | fw/main/app_bt.c:166-177 | every step, the controller's included, lowers a measure, on every stream |
| HostToController.NoDeadlock | fw/main/app_bt.c:150-176 | while a packet is missing, some task or the controller can move |
| HostToController.EveryRunDelivers | fw/main/app_bt.c:117-177 | every run takes at most seven steps a byte and four more, and one that cannot go on has delivered every packet, in order |
| RxLoops.DemuxRound | fw/main/mux.c:211-234 | one round of the frame loop is the end of the parse or its next frame, on any bytes |
| RxLoops.FeedRound | fw/main/app_bt.c:133-156 | one round of the packet loop is the end of the reassembly or its next packet, on any bytes |
| RxLoops.RunRefines | fw/main/mux.c:201-241 | on every stream and interleaving, whenever mux_rx_task is idle its buffers and packets are those the in-place reassemblers make of the chunks it received |
| MuxTx.Truncate | fw/main/mux.c:129-132 | an oversized droppable payload is cut to exactly the cap, and to a prefix |
| MuxTx.TakenAsPassed | fw/main/mux.c:129-162 | over every run, what the senders have taken is exactly what their callers passed, in order, in frames of the type asked for; droppable data cut to 528 bytes |
| MuxTx.DroppedExactly | fw/main/mux.c:117-141 | over any run, droppable frames written, being written and waiting are those its callers passed, in order, with some left out; none is left out if and only if none was offered while sixteen were waiting |
| MuxTx.SerialisedKept | fw/main/mux.c:82-102 | the wire stays finished writes plus the start of at most one frame, the mutex holder's |
| MuxTx.InOrderKept | fw/main/mux.c:107-126 | each writer's frames reach the wire in the order taken, none missing; the droppable queue is FIFO |
| MuxTx.TypedKept | fw/main/mux.c:117-168 | queue depth, payload cap and channel of each writer are kept |
| MuxTx.WireSafety | fw/main/mux.c:80-171 | in every state of every run: all of that, and the frames of each reliable sender, written and being written, are those it was called for |
| FrameOut.Assemble | fw/main/mux.c:87-96 | the buffer filled step by step is the frame, and fits |
| FrameOut.SpinelNcpSend | fw/main/spinel.c:53-64 | chunks are non-empty, within the cap, full except the last, and concatenate to the buffer |
| ToHost.WireIsStream | fw/main/mux.c:80-102 | without failed writes the wire is a prefix of whole frames back to back |
| ToHost.HostSeesSenders | fw/main/mux.c:143-171 | for every interleaving of writers and every chunking, the host dispatches exactly the frames on the wire, and on BT and on Spinel exactly the payloads the sender was called with, in order |
| ToHost.SpinelToPty | fw/host_driver/host.c:311-315 | the PTY receives a prefix of the bytes the Spinel sender was called with, and all of them in the end |
| ToHost.RecoversAfterShortWrites | fw/main/mux.c:82-102 | after writes cut short, the first read ending with a whole later frame recovers; it loses at most the first of the later frames, unless a frame it takes out of the older bytes reaches further, and every other one is delivered exactly |
| ToHost.HostToNcp | fw/main/spinel.c:66-78 | PTY bytes, framed and mixed with other frames and cut anyhow: at every moment the NCP holds a prefix of them, the payloads of the frames that have arrived whole, and all of them in the end; the same for BT; each SYNC and PING among them is answered |
| EndToEnd.BuffersToPty | fw/main/spinel.c:53-64 | buffers given to spinel_ncp_send, however interleaved with other writers and cut into reads: the PTY has a prefix of their bytes, and all in the end |
| EndToEnd.PtyToNcp | fw/host_driver/host.c:431-458 | whatever the driver sends in between and wherever its device fails: the NCP has a prefix of the bytes read from the PTY and the BT side one of the kernel's packets; in the end all, and one PONG for every ping |
| EndToEnd.KernelToController | fw/main/app_bt.c:117-177 | the HCI packets the kernel sends, with acks of its own among them or not, reach the controller in order, in every interleaving, and all of them when nothing can move any more |
| EndToEnd.AllKernelReads | fw/host_driver/host.c:431-443 | if the kernel sends HCI packets only, the controller gets everything read from it |
| Lights.RoundWithin | mqtt_bridge/devices.py:348-359 | rounding a number between two whole bounds stays between them |
| Lights.RoundHalfEven | mqtt_bridge/devices.py:358-359 | rounding is to the nearest whole number, and to the even one of two equally near |
| Lights.BuildNearest | mqtt_bridge/devices.py:348-460 | every command carries the number asked for in the device's scale to the nearest whole one, larger x and y as 65279 |
| Lights.ColorReadsBack | mqtt_bridge/devices.py:419-458 | a colour that was set reads back: saturation exactly, hue within one degree, x and y within half a unit, all above the maximum as the maximum |
| Lights.EndpointsIndependent | mqtt_bridge/bridge.py:306-321 | what a device makes of a list of writes is, per endpoint, what that endpoint makes of its own |
| WriteOrder.GroupByEndpoint | mqtt_bridge/bridge.py:316-318 | the grouping loop collects each endpoint's writes in order |
| WriteOrder.OrderGroup | mqtt_bridge/bridge.py:320-336 | one group is refused if and only if it holds a colour temperature and a colour, or its first switch is a toggle and it holds something else |
| WriteOrder.OrderWrites | mqtt_bridge/bridge.py:306-338 | refused if and only if some endpoint gets a colour temperature and a colour, or a toggle first and something else; otherwise every endpoint gets its plan and nothing else |
| WriteOrder.RefusedExactly | mqtt_bridge/bridge.py:320-332 | that condition on the writes is when some endpoint's group is in conflict |
| WriteOrder.GroupMeaning | mqtt_bridge/bridge.py:306-315 | executing a planned group: OFF ends off and touches nothing else; ON ends on with all else applied; without a state, on a light that is off, nothing happens before a brightness with on/off |
| WriteOrder.TakesExactly | mqtt_bridge/bridge.py:306-315 | a group without a state does all it says, for every light in that power state, if and only if the light is on, the group is empty, or a brightness with on/off comes first |
| WriteOrder.PlanMeaning | mqtt_bridge/bridge.py:306-338 | the same for whole devices with any number of endpoints, any payload order, any initial state |
| SetRequest.PowerMeaning | mqtt_bridge/devices.py:300-320 | exactly which values mean ON, OFF and TOGGLE, and that nothing else is accepted |
| SetRequest.LevelMeaning | mqtt_bridge/devices.py:331-346 | a brightness is accepted exactly if it is a number within the reported bounds, 1 and 254 for a bound that is 0 or missing |
| SetRequest.ColorTempMeaning | mqtt_bridge/devices.py:378-382 | a colour temperature is accepted exactly if it is a number within such bounds as are reported |
| SetRequest.ColorMeaning | mqtt_bridge/devices.py:435-447 | exactly which objects mean which colour, hue and saturation before x and y |
| SetRequest.AcceptedInRange | mqtt_bridge/devices.py:440-460 | every accepted value can be sent and its rounded arguments are in range: level in [min, max], hue and saturation <= 254, x and y <= 0xFEFF |
| SetRequest.BrightnessAtLeastOne | mqtt_bridge/devices.py:331-346 | an accepted brightness is at least 1 whatever minimum the device reports |
| SetRequest.PublishedCanBeSet | mqtt_bridge/devices.py:313-460 | what a device publishes of one property can be set back: same power, level, colour temperature and raw hue, raw saturation within one, raw x and y within three; a level or colour temperature exactly when it is within the bounds |
| SetRequest.RequestedAre | mqtt_bridge/bridge.py:287-298 | the writes are the payload's entries in its order, each for its property's endpoint with the setting its value means |
| SetRequest.Set | mqtt_bridge/bridge.py:275-304 | all or nothing: refused, with no command sent and the first thing wrong named, exactly if transition is no number or negative, with_on_off no boolean, a property unknown, read-only or invalid, or an endpoint gets two colour modes or a toggle and more; else every level command carries with_on_off as given and every fade the time given to the nearest tenth |
| SetRequest.AcceptedTogether | mqtt_bridge/bridge.py:320-332 | ON or OFF goes with a brightness and one colour: without a TOGGLE and two colour modes at one endpoint nothing conflicts |
| SetRequest.GroupNamesDistinct | mqtt_bridge/bridge.py:287-298 | a payload gives each endpoint each setting at most once |
| SetRequest.DeviceHasEachOnce | mqtt_bridge/devices.py:650-656 | the properties of a device name each settable capability of an endpoint once |
| SetRequest.SetMeaning | mqtt_bridge/bridge.py:275-338 | from payload to light, per endpoint, by the commands sent for with_on_off as given: OFF ends off and otherwise untouched; ON ends on, at the level and colour asked for; TOGGLE toggles; without a state, what the light's power, with_on_off and the payload's order allow |
| SetRequest.PayloadOrderMatters | mqtt_bridge/bridge.py:306-315 | two orders of one payload without a state, both accepted, that leave a light that was off with different colours |
| DeviceTable.RebuildEstablishes | mqtt_bridge/bridge.py:79-97 | after a rebuild, from any table and topics: one live subscription per node and none for others, the table as in the cache, and with separate names every topic right |
| DeviceTable.RebuildLists | mqtt_bridge/bridge.py:94-94 | a rebuild publishes the device list |
| DeviceTable.ChangeIsPublished | mqtt_bridge/bridge.py:117-125 | after an attribute change there is a timer for the node, and when it fires the node's state topic gets the changed state, and no other topic anything |
| DeviceTable.StructureKept | mqtt_bridge/bridge.py:71-132 | table, timers and subscriptions survive every step whatsoever |
| DeviceTable.TopicsKept | mqtt_bridge/bridge.py:79-132 | with topics kept apart, published state and availability stay right in every step but the end of an unsafe get |
| DeviceTable.EndGetExact | mqtt_bridge/bridge.py:350-353 | the end of a get leaves the topics right whatever it answers if and only if it is safe, which is decided on the state before it |
| DeviceTable.OwnTopicsAre | mqtt_bridge/bridge.py:40-42 | the bridge's own topics, one by one |
| DeviceTable.OwnExact | mqtt_bridge/bridge.py:146-149 | the bridge's own messages leave the topics right, whichever it publishes, if and only if no device has a settled topic among theirs |
| DeviceTable.FreshIsSafe | mqtt_bridge/bridge.py:340-353 | a get that ends on its own connection, under the name it began with, is safe |
| DeviceTable.EveryState | mqtt_bridge/bridge.py:71-135 | in every state of every run: pending nodes are exactly those with a timer, one each; one live subscription per node while connected; and, if every get ends safe and the current names keep their topics apart, every non-pending device is published as it is and every availability is right, offline while disconnected |
| DeviceTable.ExactlySafe | mqtt_bridge/bridge.py:71-135 | topics kept apart, they are right all through a run, whatever frozen nodes answer, if and only if every get ends safe |
| DeviceTable.NothingLost | mqtt_bridge/bridge.py:117-132 | with distinct names off the bridge's own topics, once the timers have fired: the last message on every device topic, button presses apart, is that node's state or availability, if and only if no name is another's availability topic |
| BridgeRuns.CollidingNames | mqtt_bridge/bridge.py:95-97 | two devices whose topics collide: whatever the order of announcement, a topic is left wrong with nothing pending |
| BridgeRuns.StaleGet | mqtt_bridge/bridge.py:340-353 | a run whose get spans a reconnect leaves a stale state with nothing pending |
| BridgeRuns.RenamedGet | mqtt_bridge/bridge.py:340-353 | a run within one connection whose get spans a change of names leaves one device's state on the other's topic |
| BridgeRuns.OwnTopicTaken | mqtt_bridge/bridge.py:146-149 | a device named like a topic of the bridge's own loses its state to a bridge event |
| BridgeLoop.Bridge.constructor | mqtt_bridge/bridge.py:53-58 | starts empty |
| BridgeLoop.Bridge.OnMatterConnect | mqtt_bridge/bridge.py:71-77 | refines the model's connect |
| BridgeLoop.Bridge.Rebuild | mqtt_bridge/bridge.py:79-97 | table, subscriptions and topics end as the model's rebuild says, no other topic touched |
| BridgeLoop.Bridge.DropRemoved | mqtt_bridge/bridge.py:84-86 | ends exactly the subscriptions of nodes that are gone |
| BridgeLoop.Bridge.SubscribeNew | mqtt_bridge/bridge.py:87-91 | adds exactly one for each node without |
| BridgeLoop.Bridge.PublishAll | mqtt_bridge/bridge.py:94-97 | every device announced as it is, once each, availability before state, no other topic touched |
| BridgeLoop.Bridge.OnMatterDisconnect | mqtt_bridge/bridge.py:99-102 | every device in the table announced offline, no other topic touched |
| BridgeLoop.Bridge.OnNodesChanged | mqtt_bridge/bridge.py:73-77 | refines a node event |
| BridgeLoop.Bridge.PublishOwn | mqtt_bridge/bridge.py:146-149 | refines a message of the bridge's own: no other topic touched |
| BridgeLoop.Bridge.ScheduleState | mqtt_bridge/bridge.py:117-120 | one timer per node |
| BridgeLoop.Bridge.OnAttributeUpdate | mqtt_bridge/bridge.py:87-91 | refines an attribute update: the cache changes and every live subscription calls back |
| BridgeLoop.Bridge.FlushState | mqtt_bridge/bridge.py:122-125 | refines a timer |
| BridgeLoop.Bridge.BeginGet | mqtt_bridge/bridge.py:258-271 | a get captures the device as it is in the table now |
| BridgeLoop.Bridge.EndGet | mqtt_bridge/bridge.py:350-353 | it publishes what the captured device shows at its end |
| Naming.EndpointHas | mqtt_bridge/devices.py:586-613 | exactly which capabilities an endpoint has, from its clusters and reported attributes |
| Naming.RootHas | mqtt_bridge/devices.py:645-648 | the root endpoint has the reported battery and nothing else |
| Naming.CapsOfEndpoint | mqtt_bridge/devices.py:586-613 | an endpoint has each capability at most once, and every one has something to expose |
| Naming.DecimalValue | mqtt_bridge/devices.py:655-655 | the endpoint's number in a suffix is its decimal |
| Naming.SuffixedInjective | mqtt_bridge/devices.py:653-655 | name and endpoint can be read back from a suffixed name |
| Naming.BaseNotSuffixed | mqtt_bridge/devices.py:650-656 | no plain property name looks like a suffixed one |
| Naming.SuffixedExactly | mqtt_bridge/devices.py:650-656 | a property is suffixed with its endpoint exactly if another capability has its name |
| Naming.PropsInjective | mqtt_bridge/devices.py:650-656 | for every set of endpoints and clusters no two capabilities share a property name |
| Naming.CountNames | mqtt_bridge/devices.py:652-652 | the counts are the numbers of occurrences |
| Naming.AssignProps | mqtt_bridge/devices.py:653-655 | every capability gets its property name |
| Naming.BuildProps | mqtt_bridge/devices.py:650-656 | `props` loses no capability: as many entries as capabilities, each under its own name |
| Naming.SchemaMatches | mqtt_bridge/devices.py:658-663 | the property names in the published exposes are exactly the keys of `props` |
| Topics.JoinSplit | mqtt_bridge/bridge.py:371-392 | a name survives being split at slashes and joined |
| Topics.RoutesExactly | mqtt_bridge/bridge.py:370-392 | for every topic under mt2m: exactly which are ping, discover, provision, a bridge request for which subject, or a request for which device and operation |
| Topics.RequestsRouteBack | mqtt_bridge/bridge.py:370-392 | mt2m/NAME/set and /get come back as requests for exactly NAME, if and only if NAME is not at or below bridge/request |
| Topics.ShadowedExactly | mqtt_bridge/bridge.py:371-373 | the names that requests to the bridge shadow are bridge/request and all below it |
| Topics.PublicationsIgnored | mqtt_bridge/devices.py:194-199 | state and availability of a validly named device are never taken as device requests, and are ignored if and only if no bridge request topic shadows them |
| Topics.NameExactly | mqtt_bridge/devices.py:194-199 | exactly which labels are taken as names |
| Topics.AvailabilityIsName | mqtt_bridge/devices.py:194-199 | the availability topic of a valid name is a valid name |
| Topics.OwnIsName | mqtt_bridge/devices.py:194-199 | a topic of the bridge's own is a valid device name |
| Topics.Resolve | mqtt_bridge/bridge.py:139-145 | friendly name, then unique id, then node id; with distinct friendly names, a friendly name finds its device |

## Left out

- Opening devices, PTY and `/dev/vhci`, termios, `poll`, draining on open, timestamps and hex dumps: a read is any non-empty chunk that fits, and what the host writes to vhci or the PTY is an entry in a log.
- Tail bytes inside payloads towards the host: a caveat the source accepts; the host theorems ask for tail-free payloads (`Clean`).
- The firmware's recovery from an impossible length costs what is staged (`FwDemux.FlushedByLength`) and nothing is promised about where it finds itself afterwards.
- Frames of the host that the firmware cannot hold: `send_frame` does not check, and the exactness theorems ask for at most 1024 bytes a frame and 522 a packet.
- FreeRTOS priorities, priority inheritance and real time; the OpenThread lock's wait; frame counters; the BT queue before `bt_init`.
- `mux_log_hook`'s formatting: a log line is any droppable frame.
- OpenThread, HDLC, the BLE controller, NVS, matter-server, paho, JSON parsing, provisioning, `ot-ctl`, node dumps, button actions.
- Numbers are finite reals; numeric strings are taken as the numbers they parse to, and other strings as stripped and upper-cased, before validation.
- A command that fails on its way to the device: `SetRequest.Set` sends all commands or none, and the source stops at the first that raises.
- Two nodes with the same friendly name share their topics: what is said of the topics' contents asks for distinct names with topics kept apart. Table, timers and subscriptions need neither. Retained topics of removed nodes are not cleaned up, in the source as here.
- Button presses go to a device's state topic too; they are events, never retained, and the last message on a topic is meant without them.
- BridgeRuns.StaleGet: whether a pending read of the old client can survive its disconnect is up to the client library; `BridgeRuns.RenamedGet` needs no such thing.
- A node's availability and label change only with a node event, and an attribute update is one step with its cache change.
- The live reads of a `get` are attribute updates like any other, which call the node's subscription back and so schedule a flush; this is what keeps a `get` whose later read fails consistent.
- Sensor values, units and the rest of the published device description.
- Lights.EndpointsIndependent: the light is the one the source's comments describe (off drops level and colour commands, level with on/off switches on), not the whole Matter specification.
- Topics.PublicationsIgnored: blank names are told by ASCII white space only.
