# Passive solar MQTT bridge: verified model

A Dafny model of the stream-processing core of the bridge: TCP segments are put in order, the ordered
bytes are decoded into AlphaESS frames and JSON objects, the decoded fields are merged into one state
with derived totals, and each new state is published over MQTT. The five parts are modelled one by one
and the first three are composed end to end.

The source changes state in place, so each of its objects is a class here (`Reassembly.FlowState`,
`Reassembly.Assembler`, `Decoder.Decoder`, `Processor.Processor`, `MqttClient.Client`). The contract of
every method of the first four equates the new state with a specification function of the old one
(`PushSegment`, `Pushed`, `PacketStep`, ...), and the theorems are about those functions, over all
inputs and all runs. The MQTT client meets a network that may cut a write short or fail at any byte, so
its contracts say what every connection has taken, whatever its writes reported. Everything the network
and the password file answer is on record there, and no call ends without the answers that cause it.

The specification functions are tied down by predicates over the inputs alone, which the methods promise
as well: `Crc.IsModbusChecksum`, `Decoder.FrameOutcome`, `State.Describes`, `Pipeline.PacketOutcome`,
`Pipeline.MessageOutcome`, `MqttClient.Story`.

| file | content |
|---|---|
| `Bytes.dfy`, `Fields.dfy` | byte strings, optional values, telemetry fields |
| `Crc.dfy` | CRC16-Modbus as the remainder of a polynomial division, its linearity, detection of burst errors of any stream length |
| `JsonScanner.dfy`, `JsonGrammar.dfy` | the brace scanner, and JSON syntax trees printed by RFC 8259 |
| `Decoder.dfy` | the resynchronising decoder: specification and class |
| `DecoderProperties.dfy` | chunking independence, buffer bound, conservation |
| `ChunkingLimit.dfy` | exactly when the cut between two pushes matters |
| `DecoderStreams.dfy` | round trip of streams of frames, objects and noise; damaged frames |
| `DecoderSoundness.dfy` | what is emitted on arbitrary bytes |
| `Reassembly.dfy` | sequence arithmetic, one flow, all flows, the classes |
| `ReassemblyRefinement.dfy` | the 32-bit flow refines an unbounded one; the invariant of every run |
| `ReassemblySafety.dfy` | arbitrary overlaps: safety |
| `ReassemblyLoss.dfy` | arbitrary overlaps: exactly when received bytes are stranded or dropped |
| `ReassemblyCompleteness.dfy` | fixed boundaries: completeness and independence of arrival order |
| `FlowIsolation.dfy` | flows do not interfere |
| `State.dfy` | numeric values and totals of the published state |
| `Pipeline.dfy`, `Processor.dfy` | the processor: specification and class |
| `PipelineHistory.dfy`, `PipelineConservation.dfy`, `PipelineEndToEnd.dfy` | theorems about runs of the processor |
| `MqttCodec.dfy`, `MqttClient.dfy` | packets and their decoder; connection handling and what a broker receives |

Library calls are parameters over which every theorem is quantified: `json.Unmarshal` is a total
function from bytes to an optional map, `json.Marshal` of the state, `strconv.ParseFloat`, `fmt.Sprint`
and the printing of a flow's addresses are functions, and whether the n-th publish succeeds is a
function of n. Where the code does not do what one could expect of it, the code is kept and the exact
condition is proved:

- The cut between two pushes matters to what follows if and only if the decoder discards something of
  what the first push leaves undecided: `ChunkingLimit.CutMattersIffDiscarded`, for every buffer and all
  bytes, with a concrete case in `OversizedObject`.
- A segment that covers the awaited position strands received bytes if and only if its end, or where the
  waiting segments lead from there, lies strictly inside a waiting segment: `ReassemblyLoss.StrandedExactly`,
  with a run of three segments in `OverlapStrandsBytes`.
- A segment's bytes are dropped if and only if a shorter one waits under its sequence number and some
  byte behind that one is not waiting elsewhere: `ReassemblyLoss.LostExactly`, with a run in
  `ShorterSegmentWins`.
- The checksum is stored high byte first, so damage to the last covered byte and the first checksum byte
  can go unnoticed, and no other damage within two adjacent bytes behind an intact length header can:
  `DecoderStreams.AdjacentDamageExact`.
- A stray frame mark right before a frame costs nothing but itself if the frame's kind is above 0, and
  cuts the frame off if it is 0: `DecoderStreams.StrayMarkCostsNothing` and `StrayMarkCutsKindZero`.
- A PUBLISH goes out once for every attempt that had all its bytes accepted, so twice exactly when the
  first attempt failed after its last byte, and possibly even if the call fails:
  `MqttClient.Client.PublishJSON`.
- Strings over 65535 bytes and packets over 268435455 bytes are written with wrong lengths:
  `MqttCodec.PacketRoundTripIff`.

`docs/ARCHITECTURE.md` mentions only `PpvTotal`; the code also derives `PrealTotal` and `PmeterTotal`,
and the model follows the code.

## Model

| member | source | states |
|---|---|---|
| Reassembly.Assembler.Push | internal/reassembly/reassembly.go:31-55 | A segment changes exactly the flows and delivers exactly the chunks that the pure step says, creating the flow if needed, and no two flows ever share their state. |
| Reassembly.FlowState.Push | internal/reassembly/reassembly.go:70-105 | The in-place trimming, buffering and drain loop computes the pure step; the loop terminates because the buffer shrinks. |
| Reassembly.SeqOrder | internal/reassembly/reassembly.go:112-118 | Within half the sequence space, the wrapping comparison and distance see the true order and distance of unbounded positions. |
| ReassemblyRefinement.PushRefines | internal/reassembly/reassembly.go:70-110 | One segment within the window does the same to the 32-bit flow and to a reassembler over unbounded positions. |
| ReassemblyRefinement.DrainRefines | internal/reassembly/reassembly.go:94-102 | The exact-match drain over wrapped keys delivers the same chunks as the drain over unbounded positions. |
| ReassemblyRefinement.RunInvariant | internal/reassembly/reassembly.go:31-110 | After any run of any segments: the flow is new if none brought data; otherwise nextSeq is the sequence number of the first that did plus bytesRead mod 2^32, nothing buffered is deliverable, nothing buffered is empty. |
| ReassemblySafety.ReassemblyIsSafe | internal/reassembly/reassembly.go:70-110 | For arbitrary overlapping slices of one stream, the delivered bytes are a gap-free, duplicate-free piece of it from the first captured byte. |
| ReassemblySafety.CoveringSegmentIsUsed | internal/reassembly/reassembly.go:74-92 | A segment that covers the awaited position moves it at least to the segment's end. |
| ReassemblyLoss.StrandedExactly | internal/reassembly/reassembly.go:74-102 | After any run over slices of one stream, decided before the push: a covering segment leaves the flow waiting for a byte it has if and only if the waiting segments that continue it lead strictly inside another (its own end does, if none overlap); other segments change nothing about it. |
| ReassemblyLoss.LostExactly | internal/reassembly/reassembly.go:83-88 | Decided before the push: bytes of a segment are dropped if and only if it is early, a shorter one is stored at its sequence number, and some byte behind that one waits nowhere; without overlap or a segment starting within it, if and only if it is longer than the stored one. |
| ReassemblyLoss.NothingForgotten | internal/reassembly/reassembly.go:70-105 | A byte that was read or is waiting before a push is read or waiting after it. |
| ReassemblyLoss.TimelySegmentsAreRead | internal/reassembly/reassembly.go:74-102 | In any run, a segment that does not start beyond the position awaited when it arrives is read to its end. |
| ReassemblyLoss.OverlapStrandsBytes | internal/reassembly/reassembly.go:94-102 | A run of three segments: 98..99, then 105..109, then 100..106 leaves the flow at 107 with bytes 107 to 109 stranded. |
| ReassemblyLoss.ShorterSegmentWins | internal/reassembly/reassembly.go:83-88 | A run of three segments: 98..99, then 105..106, then 105..109 drops bytes 107 to 109. |
| ReassemblyCompleteness.ReassemblyIsComplete | internal/reassembly/reassembly.go:70-118 | With fixed boundaries, any order, duplicates and wraparounds: the chunks so far are exactly the segments from the first captured to the first missing one. |
| ReassemblyCompleteness.AllDelivered | internal/reassembly/reassembly.go:70-105 | Once every segment has come, everything from the first captured one on is delivered and nothing is buffered. |
| ReassemblyCompleteness.OrderIndependence | internal/reassembly/reassembly.go:70-105 | Runs that start alike and receive the same set of segments deliver the same chunks and end in the same state. |
| FlowIsolation.AssemblerIsolatesFlows | internal/reassembly/reassembly.go:31-68 | In any interleaving each flow has the state and chunks that its own segments alone produce. |
| Crc.Crc16Modbus | internal/alphaess/decoder.go:187-200 | The nested loops compute the remainder of the transmitted bits, preset with sixteen ones, divided by x^16 + x^15 + x^2 + 1. |
| Crc.ChecksumIsUnique | internal/alphaess/decoder.go:187-200 | The folded register is that remainder, and nothing else is. |
| Crc.KnownChecksums | internal/alphaess/decoder.go:187-200 | The empty string has checksum 0xffff, and 02 07 has 0x1241 as in MODBUS over Serial Line. |
| Crc.RoundsLinear | internal/alphaess/decoder.go:191-197 | The shift rounds are linear over exclusive or. |
| Crc.RoundsInjective | internal/alphaess/decoder.go:191-197 | The shift rounds lose no information. |
| Crc.BurstDetected | internal/alphaess/decoder.go:187-200 | Strings of any length that differ by a burst of at most 16 bits never share a checksum. |
| Crc.AdjacentBytesDetected | internal/alphaess/decoder.go:187-200 | Strings that differ within two adjacent bytes never share a checksum. |
| Crc.BoundaryDamage | internal/alphaess/decoder.go:92-95 | Damage to the last byte and to the stored high byte passes the comparison if and only if eight shift rounds of the one difference give 256 times the other. |
| Crc.UnnoticedDifference | internal/alphaess/decoder.go:187-200 | 0x0c in the last byte and 0x05 in the checksum are such a pair. |
| JsonScanner.FindJsonObjectEnd | internal/alphaess/decoder.go:147-185 | The scan loop returns the end the specification defines, or reports an incomplete object. |
| JsonScanner.ObjectEndIsMinimal | internal/alphaess/decoder.go:147-185 | The end is the first place where the braces outside strings balance, and there is one exactly if they do. |
| JsonGrammar.PrintedObjectIsFound | internal/alphaess/decoder.go:147-185 | Every JSON object tree, printed with any nesting, escapes, whitespace and following bytes, is found whole, and every proper prefix is incomplete. |
| Decoder.Decoder.Push | internal/alphaess/decoder.go:26-71 | The loop over the buffer terminates and returns the messages and leaves the buffer that the specification defines. |
| Decoder.Decoder.ConsumeFrame | internal/alphaess/decoder.go:73-111 | A header of fewer than seven bytes or an incomplete frame is waited for; a length above 65536 costs exactly one byte; a whole frame goes, and its payload is a message if and only if the stored checksum, high byte first, is the Modbus checksum and the payload is neither empty nor rejected. |
| Decoder.FrameStepMeans | internal/alphaess/decoder.go:73-111 | The frame decision of the specification is the same, in terms of the buffer's bytes alone. |
| DecoderProperties.ImpossibleLengthCostsOneByte | internal/alphaess/decoder.go:78-82 | A buffer that starts with a frame mark and an impossible length decodes as the same buffer without its first byte. |
| Decoder.Decoder.AlignToNextRecordStart | internal/alphaess/decoder.go:113-132 | The buffer moves to the earlier of the next frame mark and the next brace, or garbage is discarded. |
| Decoder.Decoder.DiscardOversizedGarbage | internal/alphaess/decoder.go:134-145 | Beyond the limit only the bytes from the last brace on are kept. |
| DecoderProperties.StepStable | internal/alphaess/decoder.go:26-185 | A decision to advance is the same whatever bytes arrive later. |
| DecoderProperties.ChunkingIndependence | internal/alphaess/decoder.go:26-71 | As long as nothing undecided is discarded at any point of the run, any chunking gives the messages and buffer of one push of all bytes. |
| DecoderProperties.ChunkingWithinLimit | internal/alphaess/decoder.go:26-71 | While buffered plus pushed bytes stay within the limit, any number of pushes equals one push of their concatenation. |
| ChunkingLimit.CutMattersIffDiscarded | internal/alphaess/decoder.go:134-145 | For any buffer and first push: all second pushes, under every JSON parser, behave as one push if and only if nothing of the undecided rest is discarded. |
| ChunkingLimit.OversizedObject | internal/alphaess/decoder.go:134-145 | A brace, 2^20 spaces and a brace, then a closing brace: two pushes deliver an object, one push delivers nothing. |
| DecoderProperties.BufferBound | internal/alphaess/decoder.go:134-145 | After every push the buffer has at most 2^20 bytes or starts with the only brace in it. |
| DecoderProperties.PushConserves | internal/alphaess/decoder.go:26-71 | Emitted raw bytes plus buffered bytes never exceed the bytes that went in. |
| DecoderStreams.StreamRoundTrip | internal/alphaess/decoder.go:26-132 | Any stream of frames, bare objects and noise without braces and frame marks, in any chunking, decodes to exactly the accepted payloads of the intact items, in order, and leaves only trailing noise; noise may end with a mark, except before a frame of kind 0. |
| DecoderStreams.StrayMarkCostsNothing | internal/alphaess/decoder.go:78-82 | A mark before a frame of kind above 0 is skipped and the frame is decoded, or rejected, as if it were not there. |
| DecoderStreams.StrayMarkCutsKindZero | internal/alphaess/decoder.go:78-90 | Before a frame of kind 0 it makes the decoder take nine bytes and a 256th of the payload length, which cuts the frame. |
| DecoderStreams.Sealed | internal/alphaess/decoder_test.go:173-187 | The frame a sender builds carries exactly the checksum the decoder compares with. |
| DecoderStreams.SealedRoundTrip | internal/alphaess/decoder.go:73-111 | A stream of frames as the sender builds them, in any chunking, yields exactly their non-empty accepted payloads and leaves nothing. |
| DecoderStreams.FrameConsumed | internal/alphaess/decoder_test.go:173-187 | A frame as the sender builds it is consumed whole in one step, whatever follows. |
| DecoderStreams.FramePrefixWaits | internal/alphaess/decoder.go:74-87 | On every proper prefix of a frame the decoder waits. |
| DecoderStreams.DamagedFrameIsDropped | internal/alphaess/decoder.go:92-95 | A frame damaged within two adjacent bytes of header kind or payload is dropped and nothing else is. |
| DecoderStreams.AdjacentDamageExact | internal/alphaess/decoder.go:87-95 | Damage within two adjacent bytes anywhere behind an intact length header, checksum included, goes unnoticed if and only if it hits the last covered byte and the first checksum byte and the differences compensate. |
| DecoderStreams.BurstDamagedFrameYieldsNothing | internal/alphaess/decoder.go:92-95 | The same holds for a burst of at most 16 bits: the frame yields no message. |
| DecoderSoundness.DecoderIsSound | internal/alphaess/decoder.go:26-145 | On any input: the buffer is a suffix of the input, and messages are disjoint, ordered slices, each an intact frame's payload or a minimal balanced object, each accepted. |
| State.Build | internal/state/state.go:21-45 | The published state has the fields, the serial number and time they read as, the names configured or derived from the serial number, and as values: each number by the kind of its field, and each total as the sum over the keys made of prefix, optional sign and digits. |
| State.BuiltDescribes | internal/state/state.go:21-45 | The specified state is all that, in terms of the fields alone. |
| State.NumbersAreUnique | internal/state/state.go:60-69 | The fields determine the map of numbers, so the totals have one meaning. |
| State.NumberedIsFamily | internal/state/state.go:91-107 | A key is in a family if and only if it is the prefix, perhaps a sign, and digits of a 64-bit integer. |
| State.ShortDigitsFit | internal/state/state.go:101-103 | Any suffix of at most 18 digits is such an integer. |
| State.NumericValues | internal/state/state.go:60-69 | The loop over the map, in any order, keeps exactly the numbers: floats and ints themselves, JSON numbers and non-empty texts as what they parse as, and nothing for texts that do not parse, empty texts, nulls and others. |
| State.MatchingNumberedKeys | internal/state/state.go:91-107 | The keys returned are exactly those with the prefix and an integer suffix, each once and in ascending order, whatever the map order. |
| State.AscendingIsUnique | internal/state/state.go:105-106 | A set of keys has only one ascending enumeration, so the result does not depend on the map order. |
| State.AddNumberedTotal | internal/state/state.go:77-89 | The total is written if and only if there is such a key, and is the sum of their numbers. |
| State.TotalIgnoresOrder | internal/state/state.go:77-107 | Every enumeration of the keys gives the same total. |
| State.TotalsAreIndependent | internal/state/state.go:71-75 | The three totals sum exactly their own families, none affects another, and every other value is its field's number. |
| State.FamiliesAreDisjoint | internal/state/state.go:71-107 | No key counts for two families and no total counts itself. |
| Processor.Processor.ProcessPackets | internal/capture/pcap_file.go:109-148 | The capture loop counts every readable packet by its layers, processes the TCP ones until one fails or a read does, and leaves the counters and state that the specification defines. |
| Pipeline.CaptureIsRun | internal/capture/pcap_file.go:109-148 | A capture does what the run over its readable TCP packets does; it succeeds if and only if that run does and everything was readable. |
| Pipeline.CountersNest | internal/capture/processor.go:114-128 | Every packet is counted, those with an IPv4 layer as IPv4, and of these the TCP packets as TCP. |
| Processor.Processor.ProcessDecodedTCP | internal/capture/processor.go:79-112 | From the source to the cloud's port, or from that port back, a packet is counted with its payload; only a payload to the cloud goes on, to the flow of its two addresses and ports, whose chunks are counted; any other packet changes nothing. |
| Pipeline.PacketMeans | internal/capture/processor.go:79-112 | The specified step does the same, in terms of the packet's fields alone. |
| Processor.Processor.ProcessOutboundPayload | internal/capture/processor.go:193-225 | Each delivered chunk is counted, decoded by its flow's decoder and its messages processed, up to the first error. |
| Processor.Processor.ProcessMessage | internal/capture/processor.go:227-261 | A message is counted and its fields win before encoding; the state that the fields describe is encoded and published, retained, under topic base/raw/state, and counted before the attempt. |
| Pipeline.MessageMeans | internal/capture/processor.go:227-261 | The specified step does the same, in terms of the message and the fields alone. |
| Processor.Processor.MergeFields | internal/capture/processor.go:263-267 | The loop over the new fields, in any order, overrides the old ones. |
| Processor.Processor.DecoderForFlow | internal/capture/pcap_file.go:190-198 | A flow keeps its decoder, a new flow gets an empty one, and no two flows share one. |
| PipelineHistory.PublishedIsHistory | internal/capture/processor.go:193-267 | Without failures the published states are the running merges of the decoded messages, in order, one each. |
| PipelineHistory.SeriesIsRunningMerge | internal/capture/processor.go:227-242 | The i-th publication is that of the state described by the fields merged from the first i messages, retained, under topic base/raw/state. |
| PipelineHistory.LastWriterWins | internal/capture/processor.go:263-267 | After any history a field has the value of the last message that has it. |
| PipelineHistory.FlowsAreIsolated | internal/capture/processor.go:193-225 | In any interleaving without failures each flow's state, decoder buffer and messages are those of its own packets alone. |
| PipelineHistory.RunSucceeds | internal/capture/processor.go:193-261 | Malformed input never makes a run fail: only the encoder or the publisher can. |
| PipelineHistory.RunCounts | internal/capture/processor.go:79-95 | A run counts exactly the packets between source and cloud port, in either direction, and their payloads. |
| PipelineConservation.EveryRunConserves | internal/capture/processor.go:79-112 | JSON bytes plus residues are at most stream bytes, which plus buffered bytes are at most payload bytes; without failures stream bytes equal bytes read and messages equal publishes. |
| PipelineConservation.SegmentConserves | internal/reassembly/reassembly.go:83-110 | Chunk bytes plus waiting bytes never exceed what waited before plus the segment, and bytesRead counts the chunk bytes. |
| PipelineConservation.RunAccounted | internal/capture/processor.go:235-242 | At every moment the publish counters match the calls made to the publisher, failed ones included. |
| PipelineEndToEnd.ArrivedIsDecoded | internal/reassembly/reassembly.go:31-105 | Segments in any order, reassembled and decoded, give the messages of the contiguous stream received so far, a prefix of all messages of the stream, and all once complete. |
| PipelineEndToEnd.CaptureToPublish | internal/capture/processor.go:193-267 | For one flow's records in any arrival order, amid any other packets, the published states are the running merges of the accepted payloads of the intact records, in stream order; only packets between source and cloud port are counted. |
| MqttCodec.EncodeRemainingLength | internal/mqtt/client.go:276-290 | The loop terminates for every length and writes the base-128 form. |
| MqttCodec.LengthRoundTrip | internal/mqtt/client.go:276-290 | Reading inverts writing, whatever follows, if there is room for the bytes, and fails otherwise. |
| MqttCodec.LengthSize | internal/mqtt/client.go:276-290 | k bytes are written exactly for lengths below 128^k and not below 128^(k-1), one for zero. |
| MqttCodec.LengthMinimal | internal/mqtt/client.go:276-290 | No encoding that reads as the same length is shorter, and none of the same size differs. |
| MqttCodec.StringRoundTripIff | internal/mqtt/client.go:270-274 | A string survives its two length bytes if and only if it has at most 65535 bytes. |
| MqttCodec.ConnectPacket | internal/mqtt/client.go:201-238 | The CONNECT packet is written field by field: protocol MQTT level 4, clean session, and the flags of the fields that follow. |
| MqttCodec.PublishPacket | internal/mqtt/client.go:240-254 | The PUBLISH packet is written with its retain bit, topic and payload. |
| MqttCodec.PacketRoundTripIff | internal/mqtt/client.go:201-254 | A packet decodes back to its fields if and only if its strings and its remaining length fit. |
| MqttCodec.PrefixIsIncomplete | internal/mqtt/client.go:201-254 | Nothing is decoded from a proper prefix of a packet. |
| MqttCodec.StreamRoundTrip | internal/mqtt/client.go:201-254 | Any concatenation of packets, cut off within one more, decodes to exactly the whole packets and leaves the rest. |
| MqttCodec.StreamsAreUnique | internal/mqtt/client.go:201-254 | Two packet lists with the same wire image have the same packets and fields. |
| MqttClient.WriteFull | internal/mqtt/client.go:256-268 | For any pattern of short writes, success means all bytes in order; failure means a prefix, possibly all of them, and a broken connection. |
| MqttClient.Client.Connect | internal/mqtt/client.go:38-89 | Success leaves a session opened by one CONNECT with the client's options and the password read, and answered by 20 02 00 00. Failure leaves no connection and has a cause among the answers of network and password file: address, dial, password, user name, write, no answer or another answer. |
| MqttClient.BrokerAddressNamesPort | internal/mqtt/client.go:166-183 | There is an address if and only if the broker is a TCP URL with a host; it is the host, with port 1883 if it names none. |
| MqttClient.KeepAliveIsWhole | internal/mqtt/client.go:70 | The keep-alive sent is the whole seconds, as long as they fit 16 bits. |
| MqttClient.Client.PublishJSON | internal/mqtt/client.go:91-111 | Success means the connection carries one CONNECT and whole PUBLISH packets, this one last. The call fails only if a connect it made failed or its second attempt did; a first attempt that fails is followed by a connect and, if that succeeds, by a second attempt. Over all connections the packet goes out once per attempt that had all bytes accepted: once or twice on success (twice exactly if the first attempt of two had), up to twice on failure. |
| MqttClient.Client.PublishAll | internal/mqtt/client.go:149-164 | After a connect, if there is no connection, the messages are published in order up to the first that fails, and the connection is closed. Every message that does not fail goes out once or twice, the failing one up to twice, and none after it. |
| MqttClient.Client.Close | internal/mqtt/client.go:127-139 | DISCONNECT is written to the connection, as far as it is taken, and the connection is dropped. |
| MqttClient.BrokerSeesWholePackets | internal/mqtt/client.go:91-125 | However writes were cut and whatever they reported, a broker decodes from a connection the packets whose every byte was accepted, and is left with what there is of one more. |
| MqttClient.BrokerReceives | internal/mqtt/client.go:91-139 | Over all connections, failed ones included, a broker decodes exactly the PUBLISH packets of the attempts that had all bytes accepted, in the order of the attempts. |

## Left out

- Packet capture, pcap readers, replay timing, configuration, command line, Home Assistant discovery and install scripts: input, output and plumbing.
- `NewProcessor`: the status and discovery messages it publishes are the `earlier` publications of a new processor; IP parsing, packet timestamps and verbose logging are not part of this model.
- `writePacket`: the goroutine and context cancellation are a synchronous write, so a call that returns early while its write goes on is not covered.
- Nil receivers and a nil publisher: the checks for them return at once.
- `brokerAddress` and `readPassword`: the outcome of `url.Parse` is an option, and what reading and trimming the password file gives at each connect is arbitrary.
- `sort.Strings` in `matchingNumberedKeys`: some sorting of the keys, which `State.AscendingIsUnique` shows to be the only one; float64 rounding, NaN and infinities are not modelled.
- `sanitizeID` and `NowPayload`: the first is a parameter of `State.Build`, the second needs the clock.
- `net.IP` values are integers, and `tcpFlowID` is any function of the two addresses and two ports.
- Aliasing of byte slices (`cloneBytes`): byte strings are values, so a caller that changes a slice later is not modelled.
- JsonGrammar.PrintedObjectIsFound: literals and numbers are any text over their letters and number characters, and string bytes need not be valid UTF-8, which includes every text of RFC 8259.
- ReassemblyCompleteness.ReassemblyIsComplete: segments have at most 2^31 bytes; a TCP payload in an IPv4 packet has fewer than 2^16.
- DecoderProperties.ChunkingIndependence: stated for runs that discard nothing undecided, because the code discards by chunk; `ChunkingLimit.CutMattersIffDiscarded` proves that this is exactly when a cut does not matter.
- MqttClient.Client.PublishJSON: exactly-once delivery fails, as a packet whose last byte is accepted by a write that then fails is sent again; what is stated is how often it goes out. A connection whose write has failed is taken to accept nothing more.
