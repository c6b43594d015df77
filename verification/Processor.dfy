/** The processor object of internal/capture/processor.go, refining `Pipeline` in place. */
module Processor {
  import opened Bytes
  import opened Fields
  import opened Reassembly
  import opened Pipeline
  import D = Decoder
  import S = State

  /** A publisher that may fail on any call; it remembers what it was asked to publish. */
  class Publisher {
    const accepts: nat -> bool
    var published: seq<Publication>

    constructor (accepts: nat -> bool)
      ensures published == [] && this.accepts == accepts
    {
      this.accepts := accepts;
      published := [];
    }

    method PublishJSON(topic: string, payload: Bytes, retained: bool) returns (ok: bool)
      modifies this
      ensures published == old(published) + [Publication(topic, payload, retained)]
      ensures ok == accepts(|old(published)|)
    {
      ok := accepts(|published|);
      published := published + [Publication(topic, payload, retained)];
    }
  }

  class Processor {
    const cfg: Config
    const publisher: Publisher?
    const assembler: Assembler
    var decoders: map<string, D.Decoder>
    var fields: FieldMap
    var summary: Summary
    var counts: CaptureCounts

    /** No two flows share a decoder, and none shares reassembly state. */
    ghost predicate Valid()
      reads this, assembler, decoders.Values
    {
      && assembler.Valid()
      && (forall a, b | a in decoders && b in decoders && a != b :: decoders[a] != decoders[b])
      && (forall id | id in decoders :: decoders[id].unmarshal == cfg.unmarshal)
      && (publisher != null <==> cfg.hasPublisher)
      && (publisher != null ==> publisher.accepts == cfg.accepts)
    }

    function Buffers(): map<string, Bytes>
      reads this, decoders.Values
    {
      map id | id in decoders :: decoders[id].buffer
    }

    function Published(): seq<Publication>
      reads publisher
    {
      if publisher == null then [] else publisher.published
    }

    ghost function View(): Pipe
      reads this, assembler, assembler.flows.Values, decoders.Values, publisher
    {
      Pipe(assembler.View(), Buffers(), fields, summary, Published())
    }

    constructor (cfg: Config, publisher: Publisher?)
      requires publisher != null <==> cfg.hasPublisher
      requires publisher != null ==> publisher.accepts == cfg.accepts
      ensures Valid() && this.cfg == cfg && this.publisher == publisher
      ensures View() == NewPipe(Published()) && counts == NO_COUNTS
    {
      this.cfg := cfg;
      this.publisher := publisher;
      assembler := new Assembler();
      decoders := map[];
      fields := map[];
      summary, counts := NO_SUMMARY, NO_COUNTS;
    }

    /** The loop over a capture file. */
    method ProcessPackets(captured: seq<Captured>) returns (ok: bool)
      requires Valid()
      modifies this, assembler, assembler.flows.Values, decoders.Values, publisher
      ensures Valid()
      ensures CaptureOutcome(counts, Outcome(View(), ok)) == CaptureRun(cfg, old(View()), old(counts), captured)
    {
      hide CapturedStep;
      ghost var start, startCounts := View(), counts;
      for i := 0 to |captured|
        invariant Valid()
        invariant fresh(decoders.Values - old(decoders.Values))
        invariant fresh(assembler.flows.Values - old(assembler.flows.Values))
        invariant CaptureRun(cfg, start, startCounts, captured) == CaptureRun(cfg, View(), counts, captured[i..])
      {
        assert captured[i..][0] == captured[i] && captured[i..][1..] == captured[i + 1..];
        var fine := ProcessCaptured(captured[i]);
        if !fine {
          return false;
        }
      }
      return true;
    }

    /** One turn of that loop. */
    method ProcessCaptured(c: Captured) returns (ok: bool)
      requires Valid()
      modifies this, assembler, assembler.flows.Values, decoders.Values, publisher
      ensures Valid() && fresh(decoders.Values - old(decoders.Values))
      ensures fresh(assembler.flows.Values - old(assembler.flows.Values))
      ensures CaptureOutcome(counts, Outcome(View(), ok)) == CapturedStep(cfg, old(View()), old(counts), c)
    {
      hide PacketStep, CountLayers;
      if c.Unreadable? {
        UnreadableIsNotCounted(counts, c);
        return false;
      }
      AddLayers(c);
      if !c.TCP? {
        return true;
      }
      var p := c.packet;
      if !Matches(cfg, p) {
        UnmatchedIsIgnored(cfg, View(), p);
        return true;
      }
      ok := ProcessDecodedTCP(p);
    }

    /** `AddPacket`, `AddIPv4Packet` and `AddTCPPacket`, each if the packet has the layer. */
    method AddLayers(c: Captured)
      requires !c.Unreadable?
      modifies this`counts
      ensures counts == CountLayers(old(counts), c) && View() == old(View())
    {
      counts := counts.(packetsTotal := counts.packetsTotal + 1);
      if !c.NotIPv4? {
        counts := counts.(ipv4Packets := counts.ipv4Packets + 1);
        if !c.NotTCP? {
          counts := counts.(tcpPackets := counts.tcpPackets + 1);
        }
      }
    }

    method ProcessDecodedTCP(p: Packet) returns (ok: bool)
      requires Valid()
      modifies this, assembler, assembler.flows.Values, decoders.Values, publisher
      ensures Valid() && fresh(decoders.Values - old(decoders.Values)) && counts == old(counts)
      ensures fresh(assembler.flows.Values - old(assembler.flows.Values))
      ensures Outcome(View(), ok) == PacketStep(cfg, old(View()), p)
      ensures PacketOutcome(cfg, old(View()), p, View(), ok)
    {
      PacketMeans(cfg, View(), p);
      hide OutboundStep, Count, PacketOutcome;
      if !Matches(cfg, p) {
        return true;
      }
      CountPacket(p);
      var payloadLen := |p.payload|;
      if payloadLen > 0 && Outbound(cfg, p) {
        ok := ProcessOutboundPayload(p);
        return;
      }
      return true;
    }

    method CountPacket(p: Packet)
      modifies this`summary
      ensures View() == Count(old(View()), p)
    {
      summary := summary.(matchedPackets := summary.matchedPackets + 1);
      var payloadLen := |p.payload|;
      if payloadLen > 0 {
        summary := summary.(payloadPackets := summary.payloadPackets + 1,
                            payloadBytes := summary.payloadBytes + payloadLen);
      }
    }

    method ProcessOutboundPayload(p: Packet) returns (ok: bool)
      requires Valid()
      modifies this, assembler, assembler.flows.Values, decoders.Values, publisher
      ensures Valid() && fresh(decoders.Values - old(decoders.Values)) && counts == old(counts)
      ensures fresh(assembler.flows.Values - old(assembler.flows.Values))
      ensures Outcome(View(), ok) == OutboundStep(cfg, old(View()), p)
    {
      hide PushSegment, ChunksStep, ChunkStep;
      ghost var before := View();
      var chunks := assembler.Push(SegmentOf(cfg, p));
      ghost var start := View();
      assert start == before.(flows := PushSegment(before.flows, SegmentOf(cfg, p)).flows);
      ok := ProcessChunks(chunks);
    }

    /** The loop over the chunks of one packet. */
    method ProcessChunks(chunks: seq<StreamChunk>) returns (ok: bool)
      requires Valid()
      modifies this, decoders.Values, publisher
      ensures Valid() && fresh(decoders.Values - old(decoders.Values)) && counts == old(counts)
      ensures Outcome(View(), ok) == ChunksStep(cfg, old(View()), chunks)
    {
      hide ChunkStep;
      ghost var start := View();
      for i := 0 to |chunks|
        invariant Valid() && fresh(decoders.Values - old(decoders.Values)) && counts == old(counts)
        invariant ChunksStep(cfg, start, chunks) == ChunksStep(cfg, View(), chunks[i..])
      {
        assert chunks[i..][0] == chunks[i] && chunks[i..][1..] == chunks[i + 1..];
        var fine := ProcessChunk(chunks[i]);
        if !fine {
          return false;
        }
      }
      return true;
    }

    method ProcessChunk(chunk: StreamChunk) returns (ok: bool)
      requires Valid()
      modifies this, decoders.Values, publisher
      ensures Valid() && fresh(decoders.Values - old(decoders.Values)) && counts == old(counts)
      ensures Outcome(View(), ok) == ChunkStep(cfg, old(View()), chunk)
    {
      hide MessagesStep;
      var messages := DecodeChunk(chunk);
      ok := ProcessMessages(messages);
    }

    method DecodeChunk(chunk: StreamChunk) returns (messages: seq<D.Message>)
      requires Valid()
      modifies this, decoders.Values
      ensures Valid() && fresh(decoders.Values - old(decoders.Values)) && counts == old(counts)
      ensures View() == Decode(cfg, old(View()), chunk).0 && messages == Decode(cfg, old(View()), chunk).1
    {
      hide D.Pushed;
      CountChunk(chunk.data);
      messages := PushChunk(chunk);
    }

    /** Find the decoder of the chunk's flow and push the chunk through it. */
    method PushChunk(chunk: StreamChunk) returns (messages: seq<D.Message>)
      requires Valid()
      modifies this`decoders, decoders.Values
      ensures Valid() && fresh(decoders.Values - old(decoders.Values))
      ensures var s := old(View());
              var after := D.Pushed(cfg.unmarshal, DecoderOf(s.decoders, chunk.flowID), chunk.data);
              View() == s.(decoders := s.decoders[chunk.flowID := after.rest]) && messages == after.messages
    {
      hide D.Pushed, DecoderOf;
      var id := chunk.flowID;
      ghost var before := View();
      var decoder := DecoderForFlow(id);
      ghost var between, known := View(), decoder.buffer;
      messages := PushInto(decoder, chunk);
      ghost var rest := decoder.buffer;
      assert View() == before.(decoders := before.decoders[id := rest]) by {
        assert between.decoders == before.decoders[id := known];
        assert before.decoders[id := known][id := rest] == before.decoders[id := rest];
      }
    }

    method CountChunk(data: Bytes)
      requires Valid()
      modifies this`summary
      ensures Valid()
      ensures var s := old(View());
              View() == s.(summary := s.summary.(streamChunks := s.summary.streamChunks + 1,
                                                 streamBytes := s.summary.streamBytes + |data|))
    {
      summary := summary.(streamChunks := summary.streamChunks + 1, streamBytes := summary.streamBytes + |data|);
    }

    /** Push a chunk through the decoder of its flow; no other decoder changes. */
    method PushInto(decoder: D.Decoder, chunk: StreamChunk) returns (messages: seq<D.Message>)
      requires Valid() && chunk.flowID in decoders && decoder == decoders[chunk.flowID]
      modifies decoder
      ensures Valid()
      ensures var after := D.Pushed(cfg.unmarshal, old(decoder.buffer), chunk.data);
              messages == after.messages && decoder.buffer == after.rest
      ensures View() == old(View()).(decoders := old(View()).decoders[chunk.flowID := decoder.buffer])
    {
      hide D.Pushed;
      ghost var before := View();
      messages := decoder.Push(chunk.data);
      assert forall id | id in decoders && id != chunk.flowID :: decoders[id].buffer == before.decoders[id];
      assert Buffers() == before.decoders[chunk.flowID := decoder.buffer];
      assert assembler.View() == before.flows;
    }

    method DecoderForFlow(flowID: string) returns (decoder: D.Decoder)
      requires Valid()
      modifies this`decoders
      ensures Valid()
      ensures flowID in decoders && decoder == decoders[flowID]
      ensures decoders == old(decoders)[flowID := decoder]
      ensures decoder in old(decoders.Values) || fresh(decoder)
      ensures decoder.buffer == DecoderOf(old(View()).decoders, flowID)
      ensures View() == old(View()).(decoders := old(View()).decoders[flowID := decoder.buffer])
    {
      ghost var before := View();
      if flowID in decoders {
        decoder := decoders[flowID];
        assert Buffers() == before.decoders[flowID := decoder.buffer];
        return;
      }
      decoder := new D.Decoder(cfg.unmarshal);
      decoders := decoders[flowID := decoder];
      assert Buffers() == before.decoders[flowID := decoder.buffer];
      assert assembler.View() == before.flows;
    }

    /** The loop over the messages of one chunk. */
    method ProcessMessages(messages: seq<D.Message>) returns (ok: bool)
      requires Valid()
      modifies this`fields, this`summary, publisher
      ensures Valid()
      ensures Outcome(View(), ok) == MessagesStep(cfg, old(View()), messages)
    {
      hide MessageStep;
      ghost var start := View();
      for i := 0 to |messages|
        invariant Valid()
        invariant MessagesStep(cfg, start, messages) == MessagesStep(cfg, View(), messages[i..])
      {
        assert messages[i..][0] == messages[i] && messages[i..][1..] == messages[i + 1..];
        var fine := ProcessMessage(messages[i]);
        if !fine {
          return false;
        }
      }
      return true;
    }

    method ProcessMessage(m: D.Message) returns (ok: bool)
      requires Valid()
      modifies this`fields, this`summary, publisher
      ensures Valid()
      ensures Outcome(View(), ok) == MessageStep(cfg, old(View()), m)
      ensures MessageOutcome(cfg, old(View()), m, View(), ok)
    {
      MessageMeans(cfg, View(), m);
      hide S.Built, Publish, S.Describes, MessageOutcome;
      ghost var before := View();
      summary := summary.(jsonMessages := summary.jsonMessages + 1, jsonBytes := summary.jsonBytes + |m.raw|);
      MergeFields(m.fields);
      assert View() == Absorb(before, m);
      var state := S.Build(cfg.formats, fields, cfg.deviceID, cfg.deviceName);
      var encoded := cfg.encode(state);
      if encoded.None? {
        return false;
      }
      ok := PublishState(encoded.value);
    }

    method PublishState(payload: Bytes) returns (ok: bool)
      requires Valid()
      modifies this`summary, publisher
      ensures Valid()
      ensures Outcome(View(), ok) == Publish(cfg, old(View()), payload)
    {
      var publication := StatePublication(cfg, payload);
      summary := summary.(mqttPublishes := summary.mqttPublishes + 1,
                          mqttPayloadBytes := summary.mqttPayloadBytes + |publication.payload|);
      if publisher != null {
        ok := publisher.PublishJSON(publication.topic, publication.payload, publication.retained);
        return;
      }
      return true;
    }

    method MergeFields(more: FieldMap)
      modifies this`fields
      ensures fields == Merge(old(fields), more)
    {
      ghost var before := fields;
      var todo := more.Keys;
      while todo != {}
        invariant todo <= more.Keys
        invariant fields == before + (map key | key in more && key !in todo :: more[key])
        decreases todo
      {
        var key :| key in todo;
        fields := fields[key := more[key]];
        todo := todo - {key};
      }
    }
  }

  lemma UnmatchedIsIgnored(cfg: Config, s: Pipe, p: Packet)
    requires !Matches(cfg, p)
    ensures PacketStep(cfg, s, p) == Outcome(s, true)
  {
  }
}
