/**
 * What the processor of internal/capture/processor.go computes, as a function of its state:
 * reassembly, one decoder per flow, merged fields, counters and the publishes made.
 */
module Pipeline {
  import opened Bytes
  import opened Fields
  import opened Reassembly
  import D = Decoder
  import S = State

  // ---------------------------------------------------------------- configuration

  /** The fields of a captured TCP/IPv4 packet that matter here. */
  datatype Packet = Packet(
    srcIP: int, dstIP: int, srcPort: int, dstPort: int, seqNo: uint32, payload: Bytes)

  datatype Publication = Publication(topic: string, payload: Bytes, retained: bool)

  /**
   * Options and library calls: `encode` is `json.Marshal`, `flowID` prints the four addresses, and
   * `accepts(n)` says whether the publisher's n-th call succeeds.
   */
  datatype Config = Config(
    sourceIP: int, cloudIP: int, cloudPort: int,
    topicBase: string, deviceID: string, deviceName: string,
    unmarshal: Unmarshal, formats: S.Formats, encode: S.Payload -> Option<Bytes>,
    flowID: (int, int, int, int) -> string,
    hasPublisher: bool, accepts: nat -> bool)

  datatype Summary = Summary(
    matchedPackets: int, payloadPackets: int, payloadBytes: int,
    streamChunks: int, streamBytes: int,
    jsonMessages: int, jsonBytes: int, mqttPublishes: int, mqttPayloadBytes: int)

  datatype Pipe = Pipe(
    flows: map<string, Flow>,
    decoders: map<string, Bytes>,
    fields: FieldMap,
    summary: Summary,
    published: seq<Publication>)

  const NO_SUMMARY: Summary := Summary(0, 0, 0, 0, 0, 0, 0, 0, 0)

  /** A new processor; status and discovery messages have been published before. */
  function NewPipe(earlier: seq<Publication>): Pipe {
    Pipe(map[], map[], map[], NO_SUMMARY, earlier)
  }

  /** A state and whether the call returned without an error. */
  datatype Outcome = Outcome(pipe: Pipe, ok: bool)

  // ---------------------------------------------------------------- the flow of interest

  predicate Outbound(cfg: Config, p: Packet) {
    p.srcIP == cfg.sourceIP && p.dstIP == cfg.cloudIP && p.dstPort == cfg.cloudPort
  }

  predicate Matches(cfg: Config, p: Packet) {
    Outbound(cfg, p) || (p.srcIP == cfg.cloudIP && p.dstIP == cfg.sourceIP && p.srcPort == cfg.cloudPort)
  }

  function FlowIDOf(cfg: Config, p: Packet): string {
    (cfg.flowID)(p.srcIP, p.srcPort, p.dstIP, p.dstPort)
  }

  // ---------------------------------------------------------------- one message

  /** `for key, value := range fields { p.fields[key] = value }`. */
  function Merge(fields: FieldMap, more: FieldMap): FieldMap {
    fields + more
  }

  ghost function StatePayload(cfg: Config, fields: FieldMap): Option<Bytes> {
    cfg.encode(S.Built(cfg.formats, fields, cfg.deviceID, cfg.deviceName))
  }

  function StatePublication(cfg: Config, payload: Bytes): Publication {
    Publication(cfg.topicBase + "/raw/state", payload, true)
  }

  /** The message is counted and merged, whatever happens to the publish. */
  function Absorb(s: Pipe, m: D.Message): Pipe {
    s.(fields := Merge(s.fields, m.fields),
       summary := s.summary.(jsonMessages := s.summary.jsonMessages + 1,
                             jsonBytes := s.summary.jsonBytes + |m.raw|))
  }

  /** Publishing counts as an attempt even if it fails. */
  function Publish(cfg: Config, s: Pipe, payload: Bytes): Outcome {
    var counted := s.(summary := s.summary.(mqttPublishes := s.summary.mqttPublishes + 1,
                                            mqttPayloadBytes := s.summary.mqttPayloadBytes + |payload|));
    if !cfg.hasPublisher then Outcome(counted, true)
    else Outcome(counted.(published := s.published + [StatePublication(cfg, payload)]), cfg.accepts(|s.published|))
  }

  ghost function MessageStep(cfg: Config, s: Pipe, m: D.Message): Outcome {
    var absorbed := Absorb(s, m);
    match StatePayload(cfg, absorbed.fields)
    case None => Outcome(absorbed, false)
    case Some(payload) => Publish(cfg, absorbed, payload)
  }

  /** The first failing message ends the loop. */
  ghost function MessagesStep(cfg: Config, s: Pipe, messages: seq<D.Message>): Outcome
    decreases |messages|
  {
    if messages == [] then Outcome(s, true)
    else
      var first := MessageStep(cfg, s, messages[0]);
      if first.ok then MessagesStep(cfg, first.pipe, messages[1..]) else first
  }

  // ---------------------------------------------------------------- one chunk, one packet

  function DecoderOf(decoders: map<string, Bytes>, flowID: string): Bytes {
    if flowID in decoders then decoders[flowID] else []
  }

  /** Count the chunk and push it through its flow's decoder. */
  function Decode(cfg: Config, s: Pipe, chunk: StreamChunk): (Pipe, seq<D.Message>) {
    var after := D.Pushed(cfg.unmarshal, DecoderOf(s.decoders, chunk.flowID), chunk.data);
    (s.(decoders := s.decoders[chunk.flowID := after.rest],
        summary := s.summary.(streamChunks := s.summary.streamChunks + 1,
                              streamBytes := s.summary.streamBytes + |chunk.data|)),
     after.messages)
  }

  ghost function ChunkStep(cfg: Config, s: Pipe, chunk: StreamChunk): Outcome {
    var (decoded, messages) := Decode(cfg, s, chunk);
    MessagesStep(cfg, decoded, messages)
  }

  ghost function ChunksStep(cfg: Config, s: Pipe, chunks: seq<StreamChunk>): Outcome
    decreases |chunks|
  {
    if chunks == [] then Outcome(s, true)
    else
      var first := ChunkStep(cfg, s, chunks[0]);
      if first.ok then ChunksStep(cfg, first.pipe, chunks[1..]) else first
  }

  function SegmentOf(cfg: Config, p: Packet): Segment {
    Segment(FlowIDOf(cfg, p), p.seqNo, p.payload)
  }

  ghost function OutboundStep(cfg: Config, s: Pipe, p: Packet): Outcome {
    var step := PushSegment(s.flows, SegmentOf(cfg, p));
    ChunksStep(cfg, s.(flows := step.flows), step.chunks)
  }

  /** A matching packet is counted; only an outbound payload goes any further. */
  function Count(s: Pipe, p: Packet): Pipe {
    var matched := s.summary.(matchedPackets := s.summary.matchedPackets + 1);
    if p.payload == [] then s.(summary := matched)
    else s.(summary := matched.(payloadPackets := matched.payloadPackets + 1,
                                payloadBytes := matched.payloadBytes + |p.payload|))
  }

  ghost function PacketStep(cfg: Config, s: Pipe, p: Packet): Outcome {
    if !Matches(cfg, p) then Outcome(s, true)
    else if p.payload != [] && Outbound(cfg, p) then OutboundStep(cfg, Count(s, p), p)
    else Outcome(Count(s, p), true)
  }

  /** The packet loop of a capture, which ends at the first packet that fails. */
  ghost function Run(cfg: Config, s: Pipe, packets: seq<Packet>): Outcome
    decreases |packets|
  {
    if packets == [] then Outcome(s, true)
    else
      var first := PacketStep(cfg, s, packets[0]);
      if first.ok then Run(cfg, first.pipe, packets[1..]) else first
  }

  // ---------------------------------------------------------------- a packet, field by field

  /**
   * What a packet comes to. From the source to the cloud's port, or from that port back, it is
   * counted, with its payload; only a payload to the cloud goes on, to the flow of its addresses and
   * ports. Nothing else changes anything.
   */
  ghost predicate PacketOutcome(cfg: Config, s: Pipe, p: Packet, t: Pipe, ok: bool) {
    var sent := p.srcIP == cfg.sourceIP && p.dstIP == cfg.cloudIP && p.dstPort == cfg.cloudPort;
    var answered := p.srcIP == cfg.cloudIP && p.dstIP == cfg.sourceIP && p.srcPort == cfg.cloudPort;
    var packets := if sent || answered then 1 else 0;
    var payloads := if (sent || answered) && |p.payload| > 0 then 1 else 0;
    && t.summary.matchedPackets == s.summary.matchedPackets + packets
    && t.summary.payloadPackets == s.summary.payloadPackets + payloads
    && t.summary.payloadBytes == s.summary.payloadBytes + payloads * |p.payload|
    && if sent && |p.payload| > 0 then
         var id := (cfg.flowID)(p.srcIP, p.srcPort, p.dstIP, p.dstPort);
         var step := PushFlow(FlowOf(s.flows, id), p.seqNo, p.payload);
         t.flows == s.flows[id := step.flow] &&
         (ok ==> t.summary.streamChunks == s.summary.streamChunks + |step.chunks| &&
                 t.summary.streamBytes == s.summary.streamBytes + |Concat(step.chunks)|)
       else
         ok && t == s.(summary := s.summary.(matchedPackets := t.summary.matchedPackets,
                                             payloadPackets := t.summary.payloadPackets,
                                             payloadBytes := t.summary.payloadBytes))
  }

  /** What chunks do not touch. */
  predicate SameIntake(s: Pipe, t: Pipe) {
    t.flows == s.flows && t.summary.matchedPackets == s.summary.matchedPackets &&
    t.summary.payloadPackets == s.summary.payloadPackets && t.summary.payloadBytes == s.summary.payloadBytes
  }

  lemma {:induction false} MessagesKeepIntake(cfg: Config, s: Pipe, messages: seq<D.Message>)
    ensures var t := MessagesStep(cfg, s, messages).pipe;
            SameIntake(s, t) && t.summary.streamChunks == s.summary.streamChunks &&
            t.summary.streamBytes == s.summary.streamBytes
    decreases |messages|
  {
    hide StatePayload;
    if messages != [] && MessageStep(cfg, s, messages[0]).ok {
      MessagesKeepIntake(cfg, MessageStep(cfg, s, messages[0]).pipe, messages[1..]);
    }
  }

  lemma {:induction false} ChunksKeepIntake(cfg: Config, s: Pipe, id: string, chunks: seq<Bytes>)
    ensures var out := ChunksStep(cfg, s, Tagged(id, chunks));
            SameIntake(s, out.pipe) &&
            (out.ok ==> out.pipe.summary.streamChunks == s.summary.streamChunks + |chunks| &&
                        out.pipe.summary.streamBytes == s.summary.streamBytes + |Concat(chunks)|)
    decreases |chunks|
  {
    hide MessagesStep, D.Pushed;
    if chunks != [] {
      var tagged := Tagged(id, chunks);
      assert tagged[0] == StreamChunk(id, chunks[0]) && tagged[1..] == Tagged(id, chunks[1..]);
      var (decoded, messages) := Decode(cfg, s, tagged[0]);
      MessagesKeepIntake(cfg, decoded, messages);
      var first := ChunkStep(cfg, s, tagged[0]);
      if first.ok {
        ChunksKeepIntake(cfg, first.pipe, id, chunks[1..]);
      }
    }
  }

  lemma PacketMeans(cfg: Config, s: Pipe, p: Packet)
    ensures PacketOutcome(cfg, s, p, PacketStep(cfg, s, p).pipe, PacketStep(cfg, s, p).ok)
  {
    hide ChunksStep, PushFlow, Tagged, Concat;
    var id := FlowIDOf(cfg, p);
    var step := PushFlow(FlowOf(s.flows, id), p.seqNo, p.payload);
    ChunksKeepIntake(cfg, Count(s, p).(flows := s.flows[id := step.flow]), id, step.chunks);
  }

  // ---------------------------------------------------------------- a message, field by field

  /** The new state is encoded and published, retained, under the topic of raw states. */
  predicate StateOutcome(cfg: Config, s: Pipe, state: S.Payload, t: Pipe, ok: bool) {
    match cfg.encode(state)
    case None =>
      !ok && t.published == s.published && t.summary.mqttPublishes == s.summary.mqttPublishes &&
      t.summary.mqttPayloadBytes == s.summary.mqttPayloadBytes
    case Some(payload) =>
      t.summary.mqttPublishes == s.summary.mqttPublishes + 1 &&
      t.summary.mqttPayloadBytes == s.summary.mqttPayloadBytes + |payload| &&
      if cfg.hasPublisher then
        t.published == s.published + [Publication(cfg.topicBase + "/raw/state", payload, true)] &&
        ok == cfg.accepts(|s.published|)
      else
        t.published == s.published && ok
  }

  /**
   * What a message comes to: it is counted, its fields win over the known ones whatever happens
   * next, and the state of all fields together is encoded and published.
   */
  ghost predicate MessageOutcome(cfg: Config, s: Pipe, m: D.Message, t: Pipe, ok: bool) {
    && t.flows == s.flows && t.decoders == s.decoders
    && t.summary == s.summary.(jsonMessages := s.summary.jsonMessages + 1,
                               jsonBytes := s.summary.jsonBytes + |m.raw|,
                               mqttPublishes := t.summary.mqttPublishes,
                               mqttPayloadBytes := t.summary.mqttPayloadBytes)
    && t.fields.Keys == s.fields.Keys + m.fields.Keys
    && (forall key | key in t.fields ::
          t.fields[key] == if key in m.fields then m.fields[key] else s.fields[key])
    && exists state ::
         S.Describes(cfg.formats, t.fields, cfg.deviceID, cfg.deviceName, state) && StateOutcome(cfg, s, state, t, ok)
  }

  lemma MessageMeans(cfg: Config, s: Pipe, m: D.Message)
    ensures MessageOutcome(cfg, s, m, MessageStep(cfg, s, m).pipe, MessageStep(cfg, s, m).ok)
  {
    hide S.Built, S.Describes;
    var fields := Merge(s.fields, m.fields);
    S.BuiltDescribes(cfg.formats, fields, cfg.deviceID, cfg.deviceName);
    assert StateOutcome(cfg, s, S.Built(cfg.formats, fields, cfg.deviceID, cfg.deviceName),
                        MessageStep(cfg, s, m).pipe, MessageStep(cfg, s, m).ok);
  }

  // ---------------------------------------------------------------- one capture file

  /** What reading the next packet gives; a read error or a cancelled wait ends the capture. */
  datatype Captured = Unreadable | NotIPv4 | NotTCP | TCP(packet: Packet)

  datatype CaptureCounts = CaptureCounts(packetsTotal: int, ipv4Packets: int, tcpPackets: int)

  const NO_COUNTS: CaptureCounts := CaptureCounts(0, 0, 0)

  /** A readable packet is counted as far as its layers go. */
  function CountLayers(counts: CaptureCounts, c: Captured): CaptureCounts {
    if c.Unreadable? then counts
    else
      CaptureCounts(counts.packetsTotal + 1,
                    counts.ipv4Packets + (if c.NotIPv4? then 0 else 1),
                    counts.tcpPackets + (if c.TCP? then 1 else 0))
  }

  datatype CaptureOutcome = CaptureOutcome(counts: CaptureCounts, outcome: Outcome)

  /** Only TCP packets are processed; all readable ones are counted. */
  ghost function CapturedStep(cfg: Config, s: Pipe, counts: CaptureCounts, c: Captured): CaptureOutcome {
    CaptureOutcome(CountLayers(counts, c), if c.TCP? then PacketStep(cfg, s, c.packet) else Outcome(s, !c.Unreadable?))
  }

  /** The loop over a capture file, up to its end or the first error. */
  ghost function CaptureRun(cfg: Config, s: Pipe, counts: CaptureCounts, captured: seq<Captured>): CaptureOutcome
    decreases |captured|
  {
    if captured == [] then CaptureOutcome(counts, Outcome(s, true))
    else
      var first := CapturedStep(cfg, s, counts, captured[0]);
      if first.outcome.ok then CaptureRun(cfg, first.outcome.pipe, first.counts, captured[1..]) else first
  }

  /** The captured packets before the first that cannot be read. */
  function Readable(captured: seq<Captured>): (r: seq<Captured>)
    ensures r <= captured
  {
    if captured == [] || captured[0].Unreadable? then [] else [captured[0]] + Readable(captured[1..])
  }

  function TCPPackets(captured: seq<Captured>): seq<Packet> {
    if captured == [] then []
    else (if captured[0].TCP? then [captured[0].packet] else []) + TCPPackets(captured[1..])
  }

  function CountAll(counts: CaptureCounts, captured: seq<Captured>): CaptureCounts
    decreases |captured|
  {
    if captured == [] then counts else CountAll(CountLayers(counts, captured[0]), captured[1..])
  }

  /**
   * A capture does what the run over its readable TCP packets does, and whatever else it holds
   * only shows in the counters; it succeeds exactly if that run does and everything was readable.
   */
  lemma {:induction false} CaptureIsRun(cfg: Config, s: Pipe, counts: CaptureCounts, captured: seq<Captured>)
    ensures var capture := CaptureRun(cfg, s, counts, captured);
            var run := Run(cfg, s, TCPPackets(Readable(captured)));
            capture.outcome.pipe == run.pipe &&
            (capture.outcome.ok <==> run.ok && Readable(captured) == captured) &&
            (run.ok ==> capture.counts == CountAll(counts, Readable(captured)))
    decreases |captured|
  {
    hide PacketStep, CountLayers;
    if captured != [] && !captured[0].Unreadable? {
      var c, rest := captured[0], captured[1..];
      var packets := TCPPackets(Readable(rest));
      assert ([c] + Readable(rest))[1..] == Readable(rest);
      assert Readable(captured) == captured <==> Readable(rest) == rest by {
        assert captured == [c] + rest;
      }
      CaptureIsRun(cfg, CapturedStep(cfg, s, counts, c).outcome.pipe, CountLayers(counts, c), rest);
      if c.TCP? {
        assert ([c.packet] + packets)[1..] == packets;
        assert TCPPackets(Readable(captured)) == [c.packet] + packets;
      } else {
        assert TCPPackets(Readable(captured)) == [] + packets == packets;
      }
    } else if captured != [] {
      UnreadableIsNotCounted(counts, captured[0]);
    }
  }

  lemma UnreadableIsNotCounted(counts: CaptureCounts, c: Captured)
    requires c.Unreadable?
    ensures CountLayers(counts, c) == counts
  {
  }

  /** The packets with an IPv4 layer, TCP or not. */
  function IPv4Packets(captured: seq<Captured>): seq<Captured> {
    if captured == [] then []
    else (if captured[0].NotTCP? || captured[0].TCP? then [captured[0]] else []) + IPv4Packets(captured[1..])
  }

  /** The counters nest: every packet is counted, some of them as IPv4, and some of these as TCP. */
  lemma {:induction false} CountersNest(counts: CaptureCounts, captured: seq<Captured>)
    requires Readable(captured) == captured
    ensures var after := CountAll(counts, captured);
            after.packetsTotal == counts.packetsTotal + |captured| &&
            after.ipv4Packets == counts.ipv4Packets + |IPv4Packets(captured)| &&
            after.tcpPackets == counts.tcpPackets + |TCPPackets(captured)|
    ensures |TCPPackets(captured)| <= |IPv4Packets(captured)| <= |captured|
    decreases |captured|
  {
    if captured != [] {
      assert captured == [captured[0]] + Readable(captured[1..]);
      CountersNest(CountLayers(counts, captured[0]), captured[1..]);
    }
  }
}
