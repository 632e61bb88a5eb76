# Verification model of the ZYNQ CAN gateway

The gateway joins TCP ports 9009 to 9012 to six CAN channels. This project models its five hard parts and its flash
programmer in Dafny and proves, for all inputs, all histories or all interleavings, what they are meant to guarantee.

| part | modules |
|---|---|
| stream framing on ports 9009 and 9012 | `Framing`, `Headers`, `CommandStream`, `DownloadStream`, `PcFrame`, `Checksum`, `Bytes` |
| ring buffers and the channel set | `RingBuffer`, `ChannelSet`, `Spsc`, `BitMath` |
| broadcast scheduler | `BroadcastSpec`, `BroadcastSafety`, `BroadcastCode`, `BroadcastThreads`, `Polling` |
| mutex order | `LockOrder` |
| socket ownership | `Connections` |
| multi-packet reassembly and sending | `Reassembly`, `CanSender` |
| flash programmer | `Flash` |
| the parts together | `Gateway`; shared definitions in `Basics` |

How the parts fit together. Bytes from `recv` become packets (`Framing`, refined by the two imperative parsers); a
command payload becomes a configuration (`BroadcastCode.ParseConfig`), a download payload becomes a ring element or a
broadcast group (`DownloadStream.Route`); a group goes through `BroadcastCode.Scheduler`, each of whose methods is one
transaction of `BroadcastSpec`; `BroadcastThreads` shows that threads running the single accesses of those methods can
only produce sequences of such transactions, so that everything `BroadcastSafety` proves of histories holds of every
interleaving. Rings of groups appear in the scheduler as sequences; that a ring is a sequence is proved in `RingBuffer`.
`Gateway.Run` runs both connections, the scheduler, the rings of normal frames and the sending threads together and ties
what they end up with, and what the threads write, to what the peers sent.

Code that works in place is modelled by classes over arrays with loops (`CommandConnection`, `DownloadConnection`,
`Ring`, `RingSet`, `Scheduler`, `PacketBuffer`, `SendingThread`, the flash methods); protocols between threads are step
functions folded over an arbitrary list of steps, where a step that is not enabled changes nothing. `recv`, `read`,
`write`, the allocator and the clock are parameters: scripts of outcomes or a number given to the method. The number of
channels, ring depths and numbers of threads and connections are arbitrary except where the program's own constants
matter.

Assumptions: memory is sequentially consistent; the processor is little-endian; the monotonic clock never runs
backwards and can be read; a mutex-protected section of a wake counter is one step, which `LockOrder.MutualExclusion`
justifies; channel switches (`can_configs`) happen at any time without a lock, as in the program.

What the proofs showed about the code:

- The buffer report reads the normal ring's two counters without a lock, in an order the C expression leaves open, and
  may claim more free room than the ring has. `Spsc.WriteCounterFirst` and `Spsc.ReadCounterFirst` give the exact
  condition over every run for either order, `Spsc.BothOrdersFail` a run of every ring in which both go wrong.
- `xread` only prints a message on a short read, and the comparison then uses what the static buffer still holds, so a
  failed read-back can be reported as success: with a buffer left over from an earlier run
  (`Flash.StaleBufferAccepted`), and without one when a block repeats the block before it
  (`Flash.RepeatedBlockAccepted`). `Flash.TrustworthyIff` says exactly when code 0 can be trusted.
- The erase count is computed from a 32-bit sum that can wrap (`Flash.EraseCovers`, `Flash.EraseWraps`), though not on
  devices whose block size divides 2^32 (`Flash.WholeBlocksDoNotWrap`). Then a failed read-back can hide the loss even
  on a faithful device (`Flash.WrappedRunAccepted`).
- The reassembly time-out of 1000 ms is measured on whole seconds (`Reassembly.TimeoutIff`,
  `Reassembly.TimeoutIsCoarse`).
- Packet number and count are 16-bit fields of which 8 bits are kept (`Reassembly.CutIsExactBelow256`,
  `Reassembly.NumbersAreCut`), and only the first packet's count is looked at (`Reassembly.LaterCountsAreIgnored`).
  `Reassembly.AsMeantIff` says exactly when a group that is sent is the one its sender meant. The frames of all these
  results are valid ones, which the download port stores (`Gateway.PacketIsParcel`).
- An older frame whose length byte says more than 48 is not protected by its checksum field
  (`DownloadStream.OlderFrameIff`, `DownloadStream.LongFramesIgnoreTheirChecksum`).
- A second pulse opens the receive gate even while broadcasting is disabled, and a claim uses up a wake even when the
  channel is closed or its ring empty. The model follows the code in both.
- The comment above the buffer report says it is sent on port 9010; the code uses the socket of port 9012, and so does
  the model.

`dafny verify dfyconfig.toml` checks the whole project.

## Model

| member | source | states |
|---|---|---|
| `Framing.SegmentationIndependence` | ZMHT-ZYNQ-CAN/src/main18.c:3356-3414 | for every format and every two ways of cutting one byte stream into chunks, the packets dispatched and the bytes kept are the same, namely those of one scan of the whole stream |
| `Framing.FeedAllIsScan` | ZMHT-ZYNQ-CAN/src/main18.c:3046-3068 | a parser that keeps its leftover and scans again after each chunk computes the scan of everything received |
| `Framing.ScanAppend` | ZMHT-ZYNQ-CAN/src/main18.c:3368-3413 | scanning a stream in two halves, the second behind the leftover of the first, is scanning it at once |
| `Framing.ScanIsCanonical` | ZMHT-ZYNQ-CAN/src/main18.c:2806-3004 | the dispatched packets are those at the one canonical set of positions: disjoint, in order, every byte given up starts a complete but untrustworthy header, and the parser stops only before half a header or half a packet |
| `Framing.CanonicalExists` | ZMHT-ZYNQ-CAN/src/main18.c:2806-3004 | every byte stream has such a canonical set of positions |
| `Framing.CanonicalIsLayout` | ZMHT-ZYNQ-CAN/src/main18.c:2806-3004 | two canonical sets of positions of one stream, from any offset on, are equal: the leftmost choice is forced |
| `Framing.ScanConcat` | ZMHT-ZYNQ-CAN/tests/test_command_stream.c:9-21 | well-formed packets sent back to back come out as exactly that list with nothing left over |
| `Framing.Scan` | ZMHT-ZYNQ-CAN/src/main18.c:3368-3413 | what a scan leaves over is shorter than the longest packet, so a buffer of that size is never full after a pass |
| `Headers.JudgeByFields` | ZMHT-ZYNQ-CAN/src/main18.c:1791-1806 | the generic verdict, written with the header fields of the protocol: sync word, XOR of three words, declared length |
| `Headers.ThreeWords` | ZMHT-ZYNQ-CAN/src/main18.c:1797-1800 | the header check added up by hand on port 9009 and the one by the checksum routine on port 9012 accept the same headers |
| `Headers.MakePacketIsPacket` | ZMHT-ZYNQ-CAN/tests/test_command_stream.c:9-21 | a packet built field by field as the peer does is accepted, and its command and payload are read back unchanged |
| `Headers.PacketIffOnTheWire` | ZMHT-ZYNQ-CAN/src/main18.c:1788-1806 | for every format with such a header: exactly those byte sequences are packets that start with the four bytes of the word, state their length with the most significant byte first, carry a checksum each byte of which is the XOR of the three bytes above it, and are not too long |
| `CommandStream.ParseIsJudge` | ZMHT-ZYNQ-CAN/src/main18.c:1785-1810 | each result of the command parser, success with its length, need-more or any of the three errors, is the verdict of the format |
| `CommandStream.Route` | ZMHT-ZYNQ-CAN/src/main18.c:1814-1823 | no handler is given fewer payload bytes than the structure it reads |
| `CommandStream.CommandConnection.Discard` | ZMHT-ZYNQ-CAN/src/main18.c:3373-3376 | the memory move drops exactly the first bytes of the buffer and keeps the others in order |
| `CommandStream.CommandConnection.Append` | ZMHT-ZYNQ-CAN/src/main18.c:3357-3366 | received bytes are stored behind those already there |
| `CommandStream.CommandConnection.Drain` | ZMHT-ZYNQ-CAN/src/main18.c:3368-3413 | the in-place loop dispatches exactly the packets of the scan, leaves exactly its rest, ends, and leaves room for at least one byte |
| `CommandStream.CommandConnection.Serve` | ZMHT-ZYNQ-CAN/src/main18.c:3356-3414 | for every behaviour of recv, what has been dispatched and what is buffered is the scan of the bytes received so far; as long as no call fails, interrupted ones aside, each call takes at least one byte until the whole stream is taken |
| `CommandStream.CommandsRoundTrip` | ZMHT-ZYNQ-CAN/tests/test_command_stream.c:9-21 | any list of commands built by a peer and cut anywhere is dispatched as that list, leftover empty |
| `CommandStream.CommandsOnTheWire` | ZMHT-ZYNQ-CAN/src/main18.c:1788-1806 | the packets of port 9009 byte for byte: 03 CC F0 FF, length, checksum, at most 4096 bytes in all |
| `CommandStream.ParseByBytes` | ZMHT-ZYNQ-CAN/src/main18.c:1785-1810 | each result of the command parser said of the bytes in the buffer, in the order of its tests: half a header, a word other than 03 CC F0 FF, a wrong checksum, a length above 4080, half a packet, or success |
| `CommandStream.CommandsReachTheirHandlers` | ZMHT-ZYNQ-CAN/src/main18.c:3378-3408 | a packet whose bytes 10 and 11 are the number of a handler (256 buffers, 257 configuration, 258 information, 259 start and stop, 260 broadcast, 65285 version) reaches it with its whole payload if that has at least 4, 48, 4, 8, 40 or 0 bytes and is refused if it is shorter; any other number is reported as unknown |
| `CommandStream.MadeIsRouted` | ZMHT-ZYNQ-CAN/src/main18.c:1814-1823 | a peer that builds a command puts its number into these two bytes and the payload behind the header |
| `DownloadStream.FrontStep` | ZMHT-ZYNQ-CAN/src/main18.c:2811-2832 | the offset parser at any offset does one step of the scan: bad header one byte on, half packet stop, whole packet taken; a length beyond the buffer counts as a bad header |
| `DownloadStream.DownloadConnection.ProcessBatch` | ZMHT-ZYNQ-CAN/src/main18.c:2799-3016 | the offset loop with its one compaction refines the same scan as the per-packet parser and never leaves a full buffer |
| `DownloadStream.DownloadConnection.Compact` | ZMHT-ZYNQ-CAN/src/main18.c:3006-3015 | compaction drops exactly the bytes already parsed |
| `DownloadStream.DownloadConnection.Append` | ZMHT-ZYNQ-CAN/src/main18.c:3051-3059 | received bytes are stored behind those already there |
| `DownloadStream.DownloadConnection.Serve` | ZMHT-ZYNQ-CAN/src/main18.c:3046-3068 | for every behaviour of recv and every change of the valid channels between packets, actions are those of the scan of the bytes received while the connection was current, and unless it was replaced the buffer holds the scan's rest and has room; as long as no call fails and nobody replaces the connection the whole stream is taken |
| `DownloadStream.Route` | ZMHT-ZYNQ-CAN/src/main18.c:2834-2998 | a stored element has exactly the element size of its ring and a channel the ring has; a broadcast keeps the payload byte for byte |
| `DownloadStream.FramePayload` | ZMHT-ZYNQ-CAN/src/main18.c:2750-2797 | a broadcast consists of 1 to 128 valid type-2 frames whose concatenation is the payload, on a channel below six; a normal frame is stored only when it is valid and of type 1 |
| `DownloadStream.FramePayloadIff` | ZMHT-ZYNQ-CAN/src/main18.c:2750-2797 | a payload of whole frames is stored exactly when it is one valid frame of type 1 whose channel is below six and valid, then whole and in that channel's ring, and queued exactly when it consists of 1 to 128 valid frames of type 2 on a channel below six, then as these frames in order |
| `DownloadStream.RoutedFramesAreIntact` | ZMHT-ZYNQ-CAN/src/main18.c:2763-2768 | every frame of a broadcast and every frame stored starts with the four head bytes and XORs to zero as a whole |
| `DownloadStream.DamagedGroupIsDropped` | ZMHT-ZYNQ-CAN/src/main18.c:2763-2768 | a payload in which one frame, sent with a total XOR of zero, was damaged inside one aligned word is dropped whole |
| `DownloadStream.LegacyPayload` | ZMHT-ZYNQ-CAN/src/main18.c:2850-2956 | an older payload is stored only whole, as the first bytes of the payload, never as a broadcast |
| `DownloadStream.OlderFrameIff` | ZMHT-ZYNQ-CAN/src/main18.c:2856-2892 | a payload of command 1 that is not made of whole frames is stored, as its first 48 bytes in the ring of its channel, exactly when head bytes, length byte, channel and validity are right and, for the length 48, everything XORs to zero; for a greater length only the bytes around the checksum field are compared |
| `DownloadStream.LongFramesIgnoreTheirChecksum` | ZMHT-ZYNQ-CAN/src/main18.c:2874-2875 | where the code falls short: with a length byte above 48 the checksum field, which stays at byte 44, cancels out of its own sum, so that the verdict does not depend on it; with the length 48 any change of it is detected |
| `DownloadStream.SimulatorIsStored` | ZMHT-ZYNQ-CAN/src/main18.c:2894-2917 | simulator data is stored whole in the simulator ring of its own channel exactly when the channel is below 32 and the length to send at most 256 |
| `DownloadStream.PulseIsStored` | ZMHT-ZYNQ-CAN/src/main18.c:2919-2928 | second-pulse data needs nine bytes and goes to channel 0 of its ring |
| `DownloadStream.OtherPacketsAreRouted` | ZMHT-ZYNQ-CAN/src/main18.c:2834-2956 | packets of these kinds built by a peer are accepted by the download port and come to exactly that |
| `DownloadStream.GroupIsRoutedWhole` | ZMHT-ZYNQ-CAN/src/main18.c:2757-2796 | every well-formed group of 1 to 128 broadcast frames is routed whole and in order |
| `DownloadStream.FramesOfConcat` | ZMHT-ZYNQ-CAN/src/main18.c:2756-2768 | frames concatenated by the sender are read back as the same list |
| `DownloadStream.DownloadsRoundTrip` | ZMHT-ZYNQ-CAN/src/main18.c:3046-3068 | any list of download packets built by a peer and cut anywhere is parsed as that list, leftover empty |
| `DownloadStream.DownloadsOnTheWire` | ZMHT-ZYNQ-CAN/src/main18.c:2811-2832 | the packets of port 9012 byte for byte: 04 CC F0 FF, length, checksum, channel, at most 2097256 bytes in all |
| `Checksum.CalculateXorChecksum` | ZMHT-ZYNQ-CAN/src/main18.c:891-914 | the word loop with its zero-padded tail computes the XOR of all words |
| `Checksum.WordSumIsLaneSums` | ZMHT-ZYNQ-CAN/src/main18.c:891-914 | for every length the word sum, as stored in memory, is the four XORs of the bytes with index 0, 1, 2, 3 modulo four: no word order and no padding involved |
| `Checksum.OneWordDamageDetected` | ZMHT-ZYNQ-CAN/src/main18.c:891-914 | two buffers of equal length that differ inside one aligned word only have different sums |
| `Checksum.TrailerMatchesIffZero` | ZMHT-ZYNQ-CAN/src/main18.c:2673-2679 | whole words followed by a trailer: the trailer is their sum exactly when everything XORs to zero; `PcFrame.FrameValidIff` and `BroadcastCode.ParseConfigIff` rest on it |
| `PcFrame.FrameValidIff` | ZMHT-ZYNQ-CAN/src/main18.c:2665-2682 | a frame is valid exactly when it has 48 bytes, starts with D2 02 96 49, gives 48 as its length and XORs to zero as a whole |
| `PcFrame.DamagedFrameIsInvalid` | ZMHT-ZYNQ-CAN/src/main18.c:2673-2679 | a valid frame damaged inside one aligned word is not valid |
| `PcFrame.BuiltFields` | ZMHT-ZYNQ-CAN/src/main18.c:2684-2690 | a frame built from type, channel, id, dlc, two data words, packet count, packet number and time stamp is valid, and each of them is read back where the program looks for it |
| `BitMath.RounddownIsHighestPower` | ZMHT-ZYNQ-CAN/src/ringbuffer_channels.c:29-39 | the bit smearing yields the largest power of two not above any positive 32-bit number |
| `BitMath.AndMask` | ZMHT-ZYNQ-CAN/src/ringbuffer_channels.c:115-118 | masking with a power of two less one is the remainder |
| `RingBuffer.StoreMany` | ZMHT-ZYNQ-CAN/src/ringbuffer_channels.c:109-127 | for every capacity, element size, offset and length a copy into the ring stores element k at slot (offset + k) modulo the capacity |
| `RingBuffer.LoadInside` | ZMHT-ZYNQ-CAN/src/ringbuffer_channels.c:174-191 | a load inside a region just stored returns the stored bytes, across the end of the array too |
| `RingBuffer.LoadOutside` | ZMHT-ZYNQ-CAN/src/ringbuffer_channels.c:109-127 | a load outside the stored region returns what was there before |
| `RingBuffer.Ring.CopyIn` | ZMHT-ZYNQ-CAN/src/ringbuffer_channels.c:109-130 | the two-segment copy is the circular store, every other byte unchanged |
| `RingBuffer.Ring.CopyOut` | ZMHT-ZYNQ-CAN/src/ringbuffer_channels.c:174-195 | the two-segment copy is the circular load |
| `RingBuffer.InPosition` | ZMHT-ZYNQ-CAN/src/ringbuffer_channels.c:135-138 | the free-running write counter points exactly len slots behind the read counter even after one or both wrapped at 2^32, because the capacity divides 2^32 |
| `RingBuffer.PutAppends` | ZMHT-ZYNQ-CAN/src/ringbuffer_channels.c:159-169 | store and publish append one element to the queue the bytes and counters stand for |
| `RingBuffer.GetRemoves` | ZMHT-ZYNQ-CAN/src/ringbuffer_channels.c:200-245 | advancing the read counter removes the head of that queue, which is what lies at the counter |
| `RingBuffer.Ring.Put` | ZMHT-ZYNQ-CAN/src/ringbuffer_channels.c:140-169 | appends the element and returns 1, or returns 0 and changes nothing exactly when the ring is full or the 32-bit product of length and element size is less than one element |
| `RingBuffer.Ring.Get` | ZMHT-ZYNQ-CAN/src/ringbuffer_channels.c:200-245 | returns the oldest element and removes it, or returns 0 and changes nothing exactly when the ring is empty or that product too small |
| `RingBuffer.Ring.Len` | ZMHT-ZYNQ-CAN/src/ringbuffer_channels.c:247-253 | equals the number of queued elements whatever the counters |
| `RingBuffer.Ring.Avail` | ZMHT-ZYNQ-CAN/src/ringbuffer_channels.c:263-269 | free and queued elements add up to the capacity |
| `RingBuffer.Ring.IsFull` | ZMHT-ZYNQ-CAN/src/ringbuffer_channels.c:271-277 | true exactly when the queue has as many elements as the capacity |
| `RingBuffer.Ring.IsEmpty` | ZMHT-ZYNQ-CAN/src/ringbuffer_channels.c:279-285 | true exactly when the queue is empty |
| `RingBuffer.Ring.Reset` | ZMHT-ZYNQ-CAN/src/ringbuffer_channels.c:287-294 | empties the queue |
| `ChannelSet.ElementCountFits` | ZMHT-ZYNQ-CAN/src/ringbuffer_channels.c:62-76 | the element count chosen is a power of two, at most and more than half of what the size allows, and its byte size does not overflow 32 bits |
| `ChannelSet.Create` | ZMHT-ZYNQ-CAN/src/ringbuffer_channels.c:42-91 | an empty ring of that count, or nothing and then no block left allocated; there is a ring exactly when the sizes are not zero and both requests to the allocator succeed |
| `ChannelSet.RingSet.Init` | ZMHT-ZYNQ-CAN/src/ringbuffer_channels.c:301-356 | all channels get their own empty ring, or the set is cleared and every block given back, whichever allocation fails; it succeeds exactly when no size is zero, the byte size fits 32 bits and all 2n + 1 requests to the allocator succeed |
| `ChannelSet.RingSet.Destroy` | ZMHT-ZYNQ-CAN/src/ringbuffer_channels.c:361-380 | gives back every block the set holds, once, and clears it |
| `ChannelSet.RingSet.Put` | ZMHT-ZYNQ-CAN/src/ringbuffer_channels.c:395-405 | touches only a channel inside both the caller's limit and the allocated range, and leaves every other channel's contents as they were |
| `ChannelSet.RingSet.Get` | ZMHT-ZYNQ-CAN/src/ringbuffer_channels.c:410-420 | the same for taking the oldest element |
| `ChannelSet.ExactElementCount` | ZMHT-ZYNQ-CAN/src/ringbuffer_channels.c:320-346 | the capacity computed by the set is the capacity each ring gets |
| `Spsc.StepLinearises` | ZMHT-ZYNQ-CAN/src/ringbuffer_channels.c:140-245 | each load, byte copy or publication keeps the invariant and is, seen from outside, nothing, an enqueue, or a dequeue of the oldest element |
| `Spsc.FifoInEveryInterleaving` | ZMHT-ZYNQ-CAN/src/main18.c:2693-2707 | in every interleaving of one producer and one consumer the elements taken are a prefix of those published, whole and in order, never more than the capacity outstanding; from the room check on there is room and from the length check on an element, so that put and get behind them never fail |
| `Spsc.PublishedAsOffered` | ZMHT-ZYNQ-CAN/src/ringbuffer_channels.c:140-169 | for every run and the actions that make it up: the elements published, followed by the one in the producer's hands, are exactly those offered while there was room, byte for byte and in order |
| `Spsc.ActionsOf` | ZMHT-ZYNQ-CAN/src/main18.c:2693-2707 | every run is made up of such actions |
| `Spsc.AlwaysOk` | ZMHT-ZYNQ-CAN/src/main18.c:2442-2465 | the invariant behind it holds after every step of every interleaving |
| `Spsc.WritesNothingLive` | ZMHT-ZYNQ-CAN/src/ringbuffer_channels.c:109-130 | no byte the producer copies belongs to a slot that holds a published element |
| `Spsc.CountersCount` | ZMHT-ZYNQ-CAN/src/ringbuffer_channels.c:165-169 | in every run both counters are the numbers of elements published and taken since the start, modulo 2^32 |
| `Spsc.WriteCounterFirst` | ZMHT-ZYNQ-CAN/src/ringbuffer_channels.c:247-269 | in every run, for a report that loads the write counter at one step and the read counter at a later one: the length it computes, and, unless the counters lap each other in between, that it lies within the ring if and only if no more elements have been taken by the second step than had been published by the first; otherwise the free room reported exceeds the capacity by the difference |
| `Spsc.ReadCounterFirst` | ZMHT-ZYNQ-CAN/src/ringbuffer_channels.c:247-269 | the same for the other order of the loads: within the ring if and only if elements published by the second step exceed those taken by the first by at most the capacity; otherwise nearly 2^32 free places are reported |
| `Spsc.BothOrdersFail` | ZMHT-ZYNQ-CAN/src/main18.c:4230 | both failures are reachable in rings of every capacity and element size and from every start of the counters: one run in which the report claims one place more than the ring has in one order of the loads, and 2^32 - 1 places in the other |
| `Spsc.ReportedRingStarts` | ZMHT-ZYNQ-CAN/src/main18.c:4335 | the normal rings the report is about, of 131072 elements of 48 bytes, are such rings |
| `Polling.PollSelects` | ZMHT-ZYNQ-CAN/src/main18.c:3935-3946 | one search selects the active channel whose place among the active ones is that of the start position modulo their number, for any number of channels |
| `Polling.HitsAreFair` | ZMHT-ZYNQ-CAN/src/main18.c:3935-3946 | among any n consecutive numbers every residue modulo k is met n/k times, rounded down or up |
| `BroadcastSpec.GroupsConserved` | ZMHT-ZYNQ-CAN/src/main18.c:2709-2748 | per channel since the last configuration: groups accepted = groups delivered followed by groups queued, in order, never more than the depth queued |
| `BroadcastSpec.WakesConserved` | ZMHT-ZYNQ-CAN/src/main18.c:3967-3978 | claims that use a wake = deliveries + discards, and the 32-bit pending counter is wakes issued less claims modulo 2^32 |
| `BroadcastSpec.PendingIsExact` | ZMHT-ZYNQ-CAN/src/main18.c:4077-4091 | with fewer than 2^32 unclaimed wakes: wakes issued = pending + delivered + discarded claims |
| `BroadcastSafety.GenerationSafety` | ZMHT-ZYNQ-CAN/src/main18.c:1602-1615 | in every history a delivered group was accepted after the latest configuration, in order, and the claim uses up a wake issued after it |
| `BroadcastSafety.NoStaleWake` | ZMHT-ZYNQ-CAN/src/main18.c:4077-4091 | any claim that uses up a wake, with or without a group, uses one issued since the latest configuration |
| `BroadcastSafety.GateIsPulseWindow` | ZMHT-ZYNQ-CAN/src/main18.c:2636-2655 | the gate admits a group at a time exactly when a second pulse lies at most 1000 ms before it with no configuration since, whatever enqueues and claims happened in between |
| `BroadcastSafety.EnqueueAdmittedIffPulse` | ZMHT-ZYNQ-CAN/src/main18.c:2721-2725 | an enqueue is turned away by the gate exactly when the history holds no such pulse |
| `BroadcastSafety.EnqueueOutcome` | ZMHT-ZYNQ-CAN/src/main18.c:2709-2748 | the answer to every enqueue, from the history alone: gate closed exactly without a pulse in the window, ring full exactly with one and as many groups queued as the depth, accepted with its frames otherwise |
| `BroadcastSafety.ClaimOutcome` | ZMHT-ZYNQ-CAN/src/main18.c:4077-4091 | the answer to every claim, from the history alone: no wake exactly when wakes less claims are a multiple of 2^32; otherwise the oldest group accepted and not yet delivered if the channel is open and has one queued, and nothing if not |
| `BroadcastSafety.IdsCountAcceptedGroups` | ZMHT-ZYNQ-CAN/src/main18.c:2592-2601 | ids are never 0 and go to accepted groups only, in sequence: a rejected enqueue uses up no id |
| `BroadcastSafety.NoIdRepeats` | ZMHT-ZYNQ-CAN/src/main18.c:2592-2601 | in every history two accepted groups with fewer than 2^32 - 2 accepted ones between them have different ids |
| `BroadcastSafety.LeavesInTurn` | ZMHT-ZYNQ-CAN/src/main18.c:4077-4091 | a group with p ahead of it moves up by one at each wake-consuming claim made while the channel is open and is delivered by the (p+1)-th |
| `BroadcastSafety.PollingIsRoundRobin` | ZMHT-ZYNQ-CAN/src/main18.c:3935-3946 | in polling mode the wakes of each active channel are those of a round-robin over the active ones; an inactive channel is never woken |
| `BroadcastSafety.PollingIsFair` | ZMHT-ZYNQ-CAN/src/main18.c:3935-3946 | after m pulses each of k active channels has been woken m/k times, rounded down or up, exactly once in any k pulses, inactive ones never |
| `BroadcastSafety.EveryOtherInBetween` | ZMHT-ZYNQ-CAN/src/main18.c:3935-3946 | between two selections of one channel every other active channel is selected exactly once |
| `BroadcastSafety.AlternatesAB` | ZMHT-ZYNQ-CAN/src/main18.c:3948-3956 | in alternating mode pulses wake group A and group B in turn, by the parity of their number since the configuration |
| `BroadcastSafety.SimultaneousWakesAll` | ZMHT-ZYNQ-CAN/src/main18.c:3931-3933 | in simultaneous mode (1) every pulse until the next configuration wakes exactly the active channels: the wakes of each grow by the number of pulses, those of the others by none, and the configuration stays |
| `BroadcastSafety.IdleWakesNobody` | ZMHT-ZYNQ-CAN/src/main18.c:3921-3930 | while broadcasting is disabled, the mode is none of the three, or polling has no active channel, no pulse wakes anybody and the configuration stays |
| `BroadcastSafety.StartsIdle` | ZMHT-ZYNQ-CAN/src/main18.c:3921-3930 | that is how the program starts |
| `BroadcastCode.ConfigRoundTrip` | ZMHT-ZYNQ-CAN/src/main18.c:1617-1675 | every permitted configuration, encoded as a peer does, is read as it was meant |
| `BroadcastCode.ParseConfig` | ZMHT-ZYNQ-CAN/src/main18.c:1626-1661 | whatever 40 bytes arrive, an accepted configuration has a known mode if enabled, a group below two, and channels below six only |
| `BroadcastCode.ParseConfigIff` | ZMHT-ZYNQ-CAN/src/main18.c:1626-1661 | a payload is read as configuration c if and only if its first 40 bytes ask for c: head, direction, length, every field at its place and in its permitted range, a total XOR of zero |
| `BroadcastCode.DamagedConfigIsRefused` | ZMHT-ZYNQ-CAN/src/main18.c:1626-1640 | an accepted configuration damaged inside one aligned word is refused |
| `BroadcastCode.AcceptedConfigSetsUp` | ZMHT-ZYNQ-CAN/src/main18.c:1663-1678 | behind an accepted configuration every ring and counter is empty, the gate shut, and the set-up holds that the results on its mode ask for: simultaneous for mode 1, polling for 2, alternating for 3, idle when disabled |
| `BroadcastCode.MaskRoundTrip` | ZMHT-ZYNQ-CAN/src/main18.c:1590-1592 | the channels of a bit mask are exactly those it was made from |
| `BroadcastCode.MembersAreBits` | ZMHT-ZYNQ-CAN/src/main18.c:1590-1592 | channel c is meant by bit c of a mask |
| `BroadcastCode.Scheduler.HandleBroadcastConfig` | ZMHT-ZYNQ-CAN/src/main18.c:1617-1684 | a configuration is carried out as one transaction or refused without any effect |
| `BroadcastCode.Scheduler.ResetBroadcastBuffers` | ZMHT-ZYNQ-CAN/src/main18.c:1602-1615 | the loop empties every ring, zeroes every counter and shuts the gate |
| `BroadcastCode.Scheduler.IsRxGateOpen` | ZMHT-ZYNQ-CAN/src/main18.c:2643-2655 | answers whether the gate admits now, and shuts it for good when it does not |
| `BroadcastCode.Scheduler.SelectMaskOnPps` | ZMHT-ZYNQ-CAN/src/main18.c:3921-3965 | the search loop and the mode switch choose the mask and advance the position exactly as the transaction does, of which `BroadcastSafety` proves what each mode and the disabled state wake |
| `BroadcastCode.Scheduler.NotifyChannels` | ZMHT-ZYNQ-CAN/src/main18.c:3967-3978 | the loop adds one wake to every channel of the mask and to no other |
| `BroadcastCode.Scheduler.ProcessPps` | ZMHT-ZYNQ-CAN/src/main18.c:3980-3986 | a second pulse is one transaction: gate open whatever the mode, selection, wakes |
| `BroadcastCode.Scheduler.EnqueueGroup` | ZMHT-ZYNQ-CAN/src/main18.c:2709-2748 | group size and channel are refused before anything changes; otherwise gate, room, id and put together are one transaction, and the put's own failure return is never taken; an accepted group carries, frame by frame, what its sender put in: id, dlc, time stamp, and both data words as numbers with their byte order undone |
| `BroadcastCode.BuiltIsConverted` | ZMHT-ZYNQ-CAN/src/main18.c:2684-2690 | the CAN frame made of a frame that a sender built carries its id, dlc and time stamp, and the little-endian value of each of its two data words is the big-endian value of the same word as sent |
| `BroadcastCode.ConvertedCarries` | ZMHT-ZYNQ-CAN/src/main18.c:2738 | so does every frame of a group, in order |
| `BroadcastCode.Scheduler.TakeGroup` | ZMHT-ZYNQ-CAN/src/main18.c:4077-4091 | wake and group are claimed as one transaction; the wake is used up even when the channel is closed or its ring empty |
| `BroadcastCode.Scheduler.ProcessPayloadFrames` | ZMHT-ZYNQ-CAN/src/main18.c:2750-2797 | a payload is queued as one group, whole, in order and carrying what its sender put in, exactly when it is a well-formed broadcast, its channel valid, the gate open and the ring not full; otherwise no ring and no id changes |
| `BroadcastThreads.EveryInterleaving` | ZMHT-ZYNQ-CAN/src/main18.c:763-765 | for every interleaving of any number of threads, one sender a channel, clock ticks and unlocked channel switches: the invariant that ties the shared state to the transactions logged; a parked sender has no wake waiting |
| `BroadcastThreads.Serialisable` | ZMHT-ZYNQ-CAN/src/main18.c:763-765 | the outcomes the threads see are those of the logged transactions run one after the other, with clock readings in order |
| `BroadcastThreads.PutNeverFails` | ZMHT-ZYNQ-CAN/src/main18.c:2741-2744 | in every interleaving the put behind the room test finds room, so the branch that would lose an id is never taken |
| `BroadcastThreads.ThreadsKeepGenerations` | ZMHT-ZYNQ-CAN/src/main18.c:4093-4115 | generation safety in every interleaving, also for a sender that saw a wake before a configuration and claims after it |
| `BroadcastThreads.ThreadsKeepWindow` | ZMHT-ZYNQ-CAN/src/main18.c:2636-2655 | in every interleaving an accepted group was let in within 1000 ms of a pulse with no configuration between |
| `BroadcastThreads.MutexIsReleased` | ZMHT-ZYNQ-CAN/src/main18.c:1663-1678 | from every reachable state the holder of the state mutex, by its own steps alone, comes to its end and releases it |
| `BroadcastThreads.WakeIsClaimed` | ZMHT-ZYNQ-CAN/src/main18.c:4101-4115 | no wake is stranded: with a wake waiting and the mutex free the sender is not parked and its own next steps claim the wake |
| `BroadcastThreads.TransactionRuns` | ZMHT-ZYNQ-CAN/src/main18.c:763-765 | from every reachable state with the mutex free, the lock step of a configuring, pulsing or enqueuing thread and its own further steps make exactly the transaction asked for, with the present clock, and free the mutex again |
| `BroadcastThreads.ConfigurationRuns` | ZMHT-ZYNQ-CAN/src/main18.c:1663-1678 | for a configuration: it is installed, every ring and counter of every channel is empty, the gate is shut |
| `BroadcastThreads.PulseRuns` | ZMHT-ZYNQ-CAN/src/main18.c:3980-3986 | for a pulse: the gate is open until 1000 ms from the one clock reading taken, and exactly the channels selected have one more wake |
| `BroadcastThreads.EnqueueRuns` | ZMHT-ZYNQ-CAN/src/main18.c:2721-2747 | for an enqueue: the group is appended with its frames exactly when a pulse lies in the window and the ring has room; the thread is told which of the two was missing otherwise, and no ring changes |
| `BroadcastThreads.HolderDoesItsOwn` | ZMHT-ZYNQ-CAN/src/main18.c:763-765 | whoever holds the mutex, at whatever step, finishes the transaction it is in and no other |
| `BroadcastThreads.OthersWait` | ZMHT-ZYNQ-CAN/src/main18.c:763-765 | while the mutex is held no thread gets past its lock step |
| `BroadcastThreads.BesideTransactions` | ZMHT-ZYNQ-CAN/src/main18.c:4101-4110 | clock ticks, channel switches and the looks of senders happen beside a transaction in progress; a sender that finds no wake parks, one that finds a wake goes on to claim it |
| `LockOrder.GatewayNeverDeadlocks` | ZMHT-ZYNQ-CAN/src/main18.c:763-765 | for any number of threads and any interleaving of sections nested as the program nests them there is no wait cycle, and following whoever blocks a thread leads to one that can run |
| `LockOrder.PathsKeepTheOrder` | ZMHT-ZYNQ-CAN/src/main18.c:3060-3065 | every way through the code that takes a mutex, the unused `get_broadcast_store_mask` included and `handle_along_mode` aside, nests its sections as that order allows |
| `LockOrder.MayNestIffSomeWayDoes` | ZMHT-ZYNQ-CAN/src/main18.c:763-765 | the order allows nothing in vain: one mutex may be taken directly under another exactly if some way through the code does it |
| `LockOrder.NestedIsOrderly` | ZMHT-ZYNQ-CAN/src/main18.c:1594-1615 | properly nested sections acquire every mutex above all those held and release everything |
| `LockOrder.NoWaitCycle` | ZMHT-ZYNQ-CAN/src/main18.c:2721-2747 | for any mutexes with a rank that rises along every nesting, no reachable state has a wait cycle |
| `LockOrder.ChainToRunner` | ZMHT-ZYNQ-CAN/src/main18.c:4080-4111 | a blocked thread waits, through finitely many others, for one that can take its next step |
| `LockOrder.EverybodyCanFinish` | ZMHT-ZYNQ-CAN/src/main18.c:763-765 | for any mutexes with such a rank: from every reachable state the threads can go on until each is through its program and no mutex is held |
| `LockOrder.GatewayCanFinish` | ZMHT-ZYNQ-CAN/src/main18.c:763-765 | the same for any number of gateway threads |
| `LockOrder.MutualExclusion` | ZMHT-ZYNQ-CAN/src/main18.c:4080-4089 | no mutex is held by two threads |
| `LockOrder.WakeBeforeStateDeadlocks` | ZMHT-ZYNQ-CAN/src/main18.c:763-765 | the order is needed: with the one nesting the comment forbids, a concrete run ends in a wait cycle |
| `Connections.GlobalSocketIsOwned` | ZMHT-ZYNQ-CAN/src/main18.c:155-160 | a global socket is -1, or the open descriptor of the one connection of its port that set it, registered and not yet withdrawn, however descriptor numbers are reused |
| `Connections.CallsReachTheirConnection` | ZMHT-ZYNQ-CAN/src/main18.c:831-835 | every send and shutdown on a global socket reaches the connection registered there, and every close closes the closer's own connection, never a reused number |
| `Connections.ClosedExactlyOnce` | ZMHT-ZYNQ-CAN/src/main18.c:3070-3077 | each connection is closed at most once, by its handler or, if no handler started, by the listener, and its descriptor is released exactly then |
| `Connections.EveryConnectionCanClose` | ZMHT-ZYNQ-CAN/src/main18.c:3060-3077 | from every reachable state at most seven steps of its own handler, or of the listener, lead to the one close of a connection; only a batch in progress may have to end first |
| `Connections.ReplacedStartsNoBatch` | ZMHT-ZYNQ-CAN/src/main18.c:3060-3066 | once replaced or withdrawn a download connection never starts another batch |
| `Connections.BatchIsCurrent` | ZMHT-ZYNQ-CAN/src/main18.c:3036-3044 | while a batch runs no other connection is the download socket; at worst it was withdrawn by a failed report |
| `Connections.EveryRun` | ZMHT-ZYNQ-CAN/src/main18.c:3152-3172 | the ownership invariant holds after every run of accepts, failures, registrations, sends, batches, withdrawals and closes |
| `Connections.RegisterPublishes` | ZMHT-ZYNQ-CAN/src/main18.c:3152-3158 | from every reachable state in which a handler may register: its connection is then the global socket of its port; its predecessor, if any, is shut down, by one call that hits it; no other port and no other connection is touched |
| `Connections.SendReachesHolder` | ZMHT-ZYNQ-CAN/src/main18.c:831-835 | a complete send is one call that reaches the connection registered; one that fails is followed by one shutdown of that connection and takes the socket away; without a registered connection nothing is sent |
| `Connections.BatchIffHolder` | ZMHT-ZYNQ-CAN/src/main18.c:3060-3066 | with the download mutex free a registered download connection starts its batch, and ends it, exactly if it still is the global socket, and otherwise leaves its loop without one |
| `Connections.WhatTakesTheSocket` | ZMHT-ZYNQ-CAN/src/main18.c:155-160 | a connection stops being the global socket in three ways only: another one registers on its port, a send fails, its own handler withdraws it |
| `Connections.WithdrawsOwnSocketOnly` | ZMHT-ZYNQ-CAN/src/main18.c:3070-3074 | a handler that ends takes its own socket away and leaves a successor's alone |
| `Connections.VisitMakesItsCalls` | ZMHT-ZYNQ-CAN/src/main18.c:3125-3134 | from every reachable state without a batch in progress, a connection that is served, finds no thread or finds no memory makes exactly its calls, each hitting the connection meant, is closed once, by its handler or the listener, and leaves its number free |
| `Connections.ConnectionsGetFreeNumbers` | ZMHT-ZYNQ-CAN/src/main18.c:3125 | an accepted connection gets a number that no open file has, and any such number |
| `Connections.ClosedNumbersAreFree` | ZMHT-ZYNQ-CAN/src/main18.c:3077 | a number is free again as soon as its file is closed |
| `Reassembly.PacketBuffer.Handle` | ZMHT-ZYNQ-CAN/src/main18.c:2467-2558 | the array buffer changes and sends exactly as the step function, every index in bounds |
| `Reassembly.Step` | ZMHT-ZYNQ-CAN/src/main18.c:2467-2558 | every step keeps a collected group non-empty, incomplete and of 2 to 10 packets |
| `Reassembly.LooksAtBytes` | ZMHT-ZYNQ-CAN/src/main18.c:2467-2485 | what the thread looks at, byte by byte: 48 bytes, the four head bytes and the channel, and the low bytes of packet number and count |
| `Reassembly.GroupSentIffComplete` | ZMHT-ZYNQ-CAN/src/main18.c:2484-2558 | for every timed run several frames are sent exactly when the last one completes a group: packets 0 to n-1 with n from the first frame and 2 to 10, in order, the clock readings of neighbours at most one whole second apart, with only neutral frames between |
| `Reassembly.TimeoutIff` | ZMHT-ZYNQ-CAN/src/main18.c:2499-2504 | in milliseconds the 1000 ms time-out strikes exactly when the gap, counted from the beginning of the second of the earlier packet, reaches 2000: never up to 1000, always from 2000 on |
| `Reassembly.TimeoutIsCoarse` | ZMHT-ZYNQ-CAN/src/main18.c:2499-2504 | two valid packets 1998 ms apart are sent as one group, and two valid packets 1001 ms apart are dropped |
| `Reassembly.NeighboursInTime` | ZMHT-ZYNQ-CAN/src/main18.c:2499-2544 | neighbouring packets of every group that is sent satisfy that bound |
| `Reassembly.CutIsExactBelow256` | ZMHT-ZYNQ-CAN/src/main18.c:2484-2485 | the 8-bit packet number and count equal the 16-bit fields exactly below 256 |
| `Reassembly.NumbersAreCut` | ZMHT-ZYNQ-CAN/src/main18.c:2484-2522 | two valid frames with packet numbers 256 and 257 are sent as a group of two |
| `Reassembly.LaterCountsAreIgnored` | ZMHT-ZYNQ-CAN/src/main18.c:2510-2522 | a second packet that claims to be one of seven completes a group of two: only the first packet's count is looked at |
| `Reassembly.AsMeantIff` | ZMHT-ZYNQ-CAN/src/main18.c:2484-2556 | a group that is sent is packets 0 to n-1 by the whole 16-bit numbers, with n the first packet's whole 16-bit count, if and only if that count and all those numbers are below 256 |
| `PcFrame.PacketFields` | ZMHT-ZYNQ-CAN/src/main18.c:2665-2682 | the frames of these results are valid: they carry their length and their real checksum, and their fields are read back as put in |
| `Reassembly.GroupsDoNotOverlap` | ZMHT-ZYNQ-CAN/src/main18.c:2531-2556 | no frame is sent in two groups and none of an abandoned group with another: a later group starts behind the end of an earlier one |
| `Reassembly.GroupFramesAreNotSingles` | ZMHT-ZYNQ-CAN/src/main18.c:2487-2493 | no frame of a group is also sent on its own |
| `Reassembly.SingleSentIff` | ZMHT-ZYNQ-CAN/src/main18.c:2487-2493 | one frame alone is sent exactly when it is acceptable and says it is the only one |
| `Reassembly.ChainIsHeld` | ZMHT-ZYNQ-CAN/src/main18.c:2499-2546 | an unfinished chain of packets is what the buffer holds, with its total and its time |
| `Reassembly.HeldIsChain` | ZMHT-ZYNQ-CAN/src/main18.c:2499-2546 | what the buffer holds is always such a chain |
| `Flash.SafeRead` | ZMHT-ZYNQ-CAN/src/flashcp.c:100-127 | interrupted reads are retried at most 10000 times and move nothing; the deciding call moves what it says |
| `Flash.SafeWrite` | ZMHT-ZYNQ-CAN/src/flashcp.c:135-162 | the same for writes, which program exactly the bytes counted |
| `Flash.InterruptionsAreRetried` | ZMHT-ZYNQ-CAN/src/flashcp.c:100-127 | up to 10000 interruptions of one transfer leave no trace; the 10001st makes it fail |
| `Flash.WillingMovesAll` | ZMHT-ZYNQ-CAN/src/flashcp.c:170-220 | on a device that answers every call a transfer moves everything, however short the single calls are |
| `Flash.FullWrite` | ZMHT-ZYNQ-CAN/src/flashcp.c:170-191 | with arbitrary short writes exactly the first bytes counted are programmed, in place and in order |
| `Flash.FullRead` | ZMHT-ZYNQ-CAN/src/flashcp.c:199-220 | with arbitrary short reads the bytes counted are read in order and the rest of the buffer keeps its old bytes |
| `Flash.EraseCovers` | ZMHT-ZYNQ-CAN/src/flashcp.c:318-321 | the erased blocks cover the image if and only if the 32-bit sum of size and block size less one does not wrap |
| `Flash.EraseWraps` | ZMHT-ZYNQ-CAN/src/flashcp.c:318-321 | it does wrap: for an image filling a device of 21845 blocks of 192 KB no block is erased |
| `Flash.WrappedRunAccepted` | ZMHT-ZYNQ-CAN/src/flashcp.c:318-386 | what that leads to even on a faithful device: a flash of zeros is programmed with an image of bytes 1 and stays zero, and when every read fails while the static buffer holds bytes 1 the comparison reports success |
| `Flash.WholeBlocksDoNotWrap` | ZMHT-ZYNQ-CAN/src/flashcp.c:311-319 | a device of whole blocks whose block size divides 2^32 never makes it wrap |
| `Flash.ErasePhase` | ZMHT-ZYNQ-CAN/src/flashcp.c:318-334 | erases exactly the leading blocks; beyond them nothing changes even on failure |
| `Flash.WriteBlock` | ZMHT-ZYNQ-CAN/src/flashcp.c:362-374 | one 64 KB block is programmed whole, or reported as failed with nothing behind the image changed |
| `Flash.WritePhase` | ZMHT-ZYNQ-CAN/src/flashcp.c:342-374 | programs the image padded with 0xFF to 64 KB, which changes nothing behind the image |
| `Flash.VerifyPhase` | ZMHT-ZYNQ-CAN/src/flashcp.c:376-386 | reads back and compares block by block, with the static buffer and the reported short reads as the program has them |
| `Flash.VerifyIsComparison` | ZMHT-ZYNQ-CAN/src/flashcp.c:376-386 | as long as no read comes up short the verdict is exactly whether the flash holds the image, whatever the device did before |
| `Flash.WillingReadsAll` | ZMHT-ZYNQ-CAN/src/flashcp.c:227-237 | on such a device no read comes up short |
| `Flash.StaleBufferAccepted` | ZMHT-ZYNQ-CAN/src/flashcp.c:227-237 | a failed read is only reported: if the static buffer still holds the image from an earlier run, any flash content passes the comparison |
| `Flash.RepeatedBlockAccepted` | ZMHT-ZYNQ-CAN/src/flashcp.c:376-386 | nothing stale is needed: for an image of two equal blocks, one complete read and one failed one, any content of the second block passes |
| `Flash.AcceptsIff` | ZMHT-ZYNQ-CAN/src/flashcp.c:376-386 | for every flash, image, device behaviour and buffer the comparison accepts exactly when the bytes read are the image's, the leftovers in the first block match, and every later short read falls where its block repeats the one before |
| `Flash.TrustworthyIff` | ZMHT-ZYNQ-CAN/src/flashcp.c:376-386 | for every device behaviour, flash size and image: code 0 implies the image for all flash contents and all buffers if and only if no read comes up short, or some read behind the first block comes up short where its block differs from the one before |
| `Flash.WrittenIsFlashed` | ZMHT-ZYNQ-CAN/src/flashcp.c:338-374 | programming the padded image over erased blocks leaves the image, then 0xFF, then what was there before |
| `Flash.FlashCp` | ZMHT-ZYNQ-CAN/src/flashcp.c:271-401 | if no read was short, code 0 means the flash holds the image, on any device; when the erase sum does not wrap, then on a faithful device code 0 means so whatever the reads do, and nothing beyond the erased blocks changes whatever the code; and on a device that answers every call the code is 0; the other codes each name the step that failed: -1 and -2 exactly for an unusable image or device, -3 when the blocks to erase do not fit, -4 when the padded image does not, -5, if no read was short, only when the flash does not hold the image |
| `Gateway.ReceiveOrders` | ZMHT-ZYNQ-CAN/src/main18.c:3356-3414 | for every list of configurations sent and every way their bytes arrive, the command connection hands on exactly their payloads, each of which parses to the configuration meant |
| `Gateway.ReceiveParcels` | ZMHT-ZYNQ-CAN/src/main18.c:3046-3068 | for every list of groups and normal frames sent and every way their bytes arrive, the download connection asks for exactly their actions |
| `Gateway.ParcelIsRouted` | ZMHT-ZYNQ-CAN/src/main18.c:2834-2846 | a packet built from a parcel is accepted and routed to the group or the ring element that was meant |
| `Gateway.PacketIsParcel` | ZMHT-ZYNQ-CAN/src/main18.c:2750-2776 | a packet of a multi-packet group, whatever its number and count, is accepted by the download port and stored in the ring of its channel |
| `Gateway.StoreFrame` | ZMHT-ZYNQ-CAN/src/main18.c:2693-2707 | a normal frame enters the ring of its channel if there is room, and no other ring changes |
| `CanSender.SendingThread.Round` | ZMHT-ZYNQ-CAN/src/main18.c:2442-2558 | one round of a channel's sending thread: nothing while the channel is closed or its ring empty, otherwise the oldest frame is taken, handled by the reassembly, and what comes of it is written; no other ring changes |
| `Gateway.LaneFlows` | ZMHT-ZYNQ-CAN/src/main18.c:2442-2558 | in every schedule the frames a channel's thread has looked at, followed by those queued, are those its ring accepted, in order, and what it has written is what the reassembly sends for the frames looked at |
| `Gateway.NothingLostIff` | ZMHT-ZYNQ-CAN/src/main18.c:2693-2707 | a ring accepts exactly the frames meant for its channel, in order, if and only if none of them finds it full; none does while there are no more of them than places |
| `Gateway.AllArrive` | ZMHT-ZYNQ-CAN/src/main18.c:2442-2558 | with a ring never full and drained in the end, the channel writes what the reassembly makes of exactly the frames the peers meant for it |
| `Gateway.FrameMeantFor` | ZMHT-ZYNQ-CAN/src/main18.c:2774-2778 | the frames a schedule means for a channel are those of its parcels that are normal frames for it while it is valid, in order |
| `Gateway.GroupEndToEnd` | ZMHT-ZYNQ-CAN/src/main18.c:4077-4091 | a configuration, a pulse and a group sent at most 1000 ms after it: the broadcast sender of the group's channel, woken by that pulse, is given this group, and it carries what the peer put in |
| `Gateway.Run` | ZMHT-ZYNQ-CAN/src/main18.c:2799-3016 | end to end: for all orders and parcels, all cuts of their bytes and all interleavings of commands, downloads, pulses, broadcast senders and the channels' sending threads, the scheduler is in the state of the transactions the peers meant, and ring, reassembly buffer and output of each channel are those of its lane |

## Left out

- Socket set-up, listening, keepalive, response packets, event texts and printing: plumbing around the parts above.
- `axican.c` and the pulse driver `zmuav_pl2ps_irq.c`: thin calls into drivers; a second pulse is an external step here.
- `can_frame_queue.c`: not built by CMakeLists.txt, and its count is raised before there is room.
- `along_data_tid_thread`, `handle_along_mode` and its condition variable, `can_buffers`, `BufferManager`,
  `get_broadcast_store_mask`: dead or legacy paths with no usable contract.
- `handle_can_config`, information, buffer and version queries: field copying; only their routing and their mutexes are modelled.
- The frames of a claimed group after it left the ring: writing them to the device happens outside the state mutex and may fail half way.
- The null-pointer tests of the C functions: a missing ring or stream is modelled only where the code can reach it.
- A failing `clock_gettime`, which the program turns into time 0.
- The stored copies of `start_group`, `start_channel` and `config_count`, which nothing reads back.
- Weak memory: the barriers at ringbuffer_channels.c lines 129 and 194 are taken to give sequential consistency.
- `g_can_buf_set`, which two threads may consume: the single-consumer results are about `g_data_buf_set` only.
- Time-outs, priorities and fairness of the thread scheduler: progress is stated as steps a thread can take, not as time.
- DownloadStream.Route: DMA payloads are recognised and dropped, as in the code; the ring's room check and its error event are part of the rings and of the event port.
- DownloadStream.DownloadConnection.Serve: the last bytes a replaced connection received are dropped unparsed, as in the code; the statement about the buffer is for a connection that was not replaced.
- BroadcastSpec.PendingIsExact: needs fewer than 2^32 unclaimed wakes; `BroadcastSpec.WakesConserved` says what holds without that.
- Flash.FlashCp: seeking always succeeds here, while `xlseek` only prints when it fails and the run goes on at the old position; the kernel's own MTD checks, bad blocks and locking are not part of this model.
- Gateway.Run: the rings for simulator and pulse data are filled in the same way and are not followed here; a failing write of a frame is reported by the program and the frame counts as written; both connections receive everything before the turns are taken, which makes no difference because receiving touches neither the scheduler nor the rings.
- Spsc.WriteCounterFirst: the condition is for reports during which fewer than 2^32 less the capacity elements pass; without that bound the length is given modulo 2^32.
- Connections.CallsReachTheirConnection: `recv` on a handler's own descriptor is not logged; the descriptor is open for as long as the handler runs.
