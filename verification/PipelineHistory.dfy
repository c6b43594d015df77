/** The published states as a function of the message history, and the isolation of flows. */
module PipelineHistory {
  import opened Bytes
  import opened Fields
  import opened Reassembly
  import opened ReassemblyRefinement
  import opened Pipeline
  import D = Decoder
  import P = DecoderProperties
  import S = State

  // ---------------------------------------------------------------- histories

  /** Last writer wins: the fields after a history of messages. */
  function FoldFields(fields: FieldMap, messages: seq<D.Message>): FieldMap
    decreases |messages|
  {
    if messages == [] then fields else FoldFields(Merge(fields, messages[0].fields), messages[1..])
  }

  /** The states published for a history: one for each message, of the fields merged so far. */
  ghost function StateSeries(cfg: Config, fields: FieldMap, messages: seq<D.Message>): seq<Publication>
    decreases |messages|
  {
    if messages == [] then []
    else
      var merged := Merge(fields, messages[0].fields);
      (match StatePayload(cfg, merged)
       case None => []
       case Some(payload) => [StatePublication(cfg, payload)])
      + StateSeries(cfg, merged, messages[1..])
  }

  /** A field has the value given by the last message that has it, or its value before all of them. */
  lemma {:induction false} LastWriterWins(fields: FieldMap, messages: seq<D.Message>, key: string, last: int)
    requires -1 <= last < |messages|
    requires last >= 0 ==> key in messages[last].fields
    requires forall i | last < i < |messages| :: key !in messages[i].fields
    ensures var after := FoldFields(fields, messages);
            if last >= 0 then key in after && after[key] == messages[last].fields[key]
            else (key in after <==> key in fields) && (key in after ==> after[key] == fields[key])
    decreases |messages|
  {
    if messages != [] {
      var merged := Merge(fields, messages[0].fields);
      if last == 0 {
        LastWriterWins(merged, messages[1..], key, -1);
      } else {
        LastWriterWins(merged, messages[1..], key, if last < 0 then -1 else last - 1);
      }
    }
  }

  lemma {:induction false} FoldFieldsAppend(fields: FieldMap, a: seq<D.Message>, b: seq<D.Message>)
    ensures FoldFields(fields, a + b) == FoldFields(FoldFields(fields, a), b)
    decreases |a|
  {
    if a == [] {
      assert a + b == b;
    } else {
      assert (a + b)[1..] == a[1..] + b;
      FoldFieldsAppend(Merge(fields, a[0].fields), a[1..], b);
    }
  }

  lemma {:induction false} StateSeriesAppend(cfg: Config, fields: FieldMap, a: seq<D.Message>, b: seq<D.Message>)
    ensures StateSeries(cfg, fields, a + b) ==
            StateSeries(cfg, fields, a) + StateSeries(cfg, FoldFields(fields, a), b)
    decreases |a|
  {
    hide StatePayload;
    if a == [] {
      assert a + b == b;
    } else {
      assert (a + b)[1..] == a[1..] + b;
      StateSeriesAppend(cfg, Merge(fields, a[0].fields), a[1..], b);
    }
  }

  /** A publication of the state of all fields, retained, under the topic of raw states. */
  ghost predicate Publishes(cfg: Config, fields: FieldMap, publication: Publication) {
    && publication.topic == cfg.topicBase + "/raw/state" && publication.retained
    && exists state ::
         S.Describes(cfg.formats, fields, cfg.deviceID, cfg.deviceName, state) &&
         cfg.encode(state) == Some(publication.payload)
  }

  lemma StateIsPublished(cfg: Config, fields: FieldMap)
    requires StatePayload(cfg, fields).Some?
    ensures Publishes(cfg, fields, StatePublication(cfg, StatePayload(cfg, fields).value))
  {
    hide S.Built, S.Describes;
    S.BuiltDescribes(cfg.formats, fields, cfg.deviceID, cfg.deviceName);
  }

  /** The state after the first `i` messages, encoded. */
  ghost function PayloadAfter(cfg: Config, fields: FieldMap, messages: seq<D.Message>, i: nat): Option<Bytes>
    requires i <= |messages|
  {
    StatePayload(cfg, FoldFields(fields, messages[..i]))
  }

  /**
   * The i-th published state is that of the fields merged from the first i messages, numeric values
   * and totals included, if all of them can be encoded.
   */
  lemma {:induction false} SeriesIsRunningMerge(cfg: Config, fields: FieldMap, messages: seq<D.Message>)
    requires forall i | 1 <= i <= |messages| :: PayloadAfter(cfg, fields, messages, i).Some?
    ensures var series := StateSeries(cfg, fields, messages);
            |series| == |messages| &&
            forall i | 1 <= i <= |messages| ::
              series[i - 1] == StatePublication(cfg, PayloadAfter(cfg, fields, messages, i).value) &&
              Publishes(cfg, FoldFields(fields, messages[..i]), series[i - 1])
    decreases |messages|
  {
    hide StatePayload, StateSeries, FoldFields, PayloadAfter, Publishes, StatePublication;
    if messages == [] {
      SeriesOfNothing(cfg, fields);
    } else {
      var n := |messages|;
      var init := messages[..n - 1];
      var last := messages[n - 1];
      forall i | 1 <= i < n
        ensures PayloadAfter(cfg, fields, init, i) == PayloadAfter(cfg, fields, messages, i)
      {
        PrefixPayload(cfg, fields, messages, i);
      }
      assert forall i | 1 <= i < n :: init[..i] == messages[..i];
      SeriesIsRunningMerge(cfg, fields, init);
      PublishedAfter(cfg, fields, messages);
      LastOfSeries(cfg, fields, messages);
    }
  }

  lemma PrefixPayload(cfg: Config, fields: FieldMap, messages: seq<D.Message>, i: nat)
    requires i < |messages|
    ensures PayloadAfter(cfg, fields, messages[..|messages| - 1], i) == PayloadAfter(cfg, fields, messages, i)
  {
    assert messages[..|messages| - 1][..i] == messages[..i];
  }

  lemma PublishedAfter(cfg: Config, fields: FieldMap, messages: seq<D.Message>)
    requires PayloadAfter(cfg, fields, messages, |messages|).Some?
    ensures Publishes(cfg, FoldFields(fields, messages[..|messages|]),
                      StatePublication(cfg, PayloadAfter(cfg, fields, messages, |messages|).value))
  {
    hide StatePayload, Publishes, StatePublication;
    StateIsPublished(cfg, FoldFields(fields, messages[..|messages|]));
  }

  lemma LastOfSeries(cfg: Config, fields: FieldMap, messages: seq<D.Message>)
    requires messages != [] && PayloadAfter(cfg, fields, messages, |messages|).Some?
    ensures StateSeries(cfg, fields, messages) ==
            StateSeries(cfg, fields, messages[..|messages| - 1])
            + [StatePublication(cfg, PayloadAfter(cfg, fields, messages, |messages|).value)]
  {
    hide StatePayload, StateSeries, FoldFields;
    var init := messages[..|messages| - 1];
    var last := messages[|messages| - 1];
    assert messages == init + [last] && messages[..|messages|] == messages;
    StateSeriesAppend(cfg, fields, init, [last]);
    FoldFieldsAppend(fields, init, [last]);
    SeriesOfOne(cfg, FoldFields(fields, init), last);
  }

  lemma SeriesOfOne(cfg: Config, fields: FieldMap, m: D.Message)
    ensures FoldFields(fields, [m]) == Merge(fields, m.fields)
    ensures var payload := StatePayload(cfg, Merge(fields, m.fields));
            StateSeries(cfg, fields, [m]) == if payload.Some? then [StatePublication(cfg, payload.value)] else []
  {
    hide StatePayload;
    assert [m][1..] == [];
  }

  /** A history that published once for each message had no state that could not be encoded. */
  lemma {:induction false} WholeSeries(cfg: Config, fields: FieldMap, messages: seq<D.Message>)
    ensures |StateSeries(cfg, fields, messages)| <= |messages|
    ensures |StateSeries(cfg, fields, messages)| == |messages| ==>
              forall i | 1 <= i <= |messages| :: PayloadAfter(cfg, fields, messages, i).Some?
    decreases |messages|
  {
    hide StatePayload, StateSeries, FoldFields, PayloadAfter;
    if messages == [] {
      SeriesOfNothing(cfg, fields);
    } else {
      var n := |messages|;
      var init := messages[..n - 1];
      WholeSeries(cfg, fields, init);
      LastOrNothing(cfg, fields, messages);
      forall i | 1 <= i < n
        ensures PayloadAfter(cfg, fields, init, i) == PayloadAfter(cfg, fields, messages, i)
      {
        PrefixPayload(cfg, fields, messages, i);
      }
    }
  }

  lemma LastOrNothing(cfg: Config, fields: FieldMap, messages: seq<D.Message>)
    requires messages != []
    ensures |StateSeries(cfg, fields, messages)| ==
            |StateSeries(cfg, fields, messages[..|messages| - 1])|
            + (if PayloadAfter(cfg, fields, messages, |messages|).Some? then 1 else 0)
  {
    hide StatePayload, StateSeries, FoldFields;
    var init, last := messages[..|messages| - 1], messages[|messages| - 1];
    assert messages == init + [last] && messages[..|messages|] == messages;
    StateSeriesAppend(cfg, fields, init, [last]);
    FoldFieldsAppend(fields, init, [last]);
    SeriesOfOne(cfg, FoldFields(fields, init), last);
  }

  // ---------------------------------------------------------------- messages without failures

  /** What a successful stretch of processing did to everything but the counters. */
  ghost predicate Did(cfg: Config, s: Pipe, t: Pipe, messages: seq<D.Message>) {
    && t.fields == FoldFields(s.fields, messages)
    && t.published == s.published + (if cfg.hasPublisher then StateSeries(cfg, s.fields, messages) else [])
    && |StateSeries(cfg, s.fields, messages)| == |messages|
  }

  lemma DidNothing(cfg: Config, s: Pipe, t: Pipe)
    requires t.fields == s.fields && t.published == s.published
    ensures Did(cfg, s, t, [])
  {
  }

  lemma DidBoth(cfg: Config, s: Pipe, t: Pipe, u: Pipe, a: seq<D.Message>, b: seq<D.Message>)
    requires Did(cfg, s, t, a) && Did(cfg, t, u, b)
    ensures Did(cfg, s, u, a + b)
  {
    hide StateSeries;
    FoldFieldsAppend(s.fields, a, b);
    StateSeriesAppend(cfg, s.fields, a, b);
  }

  lemma MessageDone(cfg: Config, s: Pipe, m: D.Message)
    requires MessageStep(cfg, s, m).ok
    ensures var t := MessageStep(cfg, s, m).pipe;
            Did(cfg, s, t, [m]) && t.flows == s.flows && t.decoders == s.decoders
  {
    hide StatePayload;
    var merged := Merge(s.fields, m.fields);
    assert [m][1..] == [];
    assert FoldFields(s.fields, [m]) == FoldFields(merged, []);
    var payload := StatePayload(cfg, merged);
    assert StateSeries(cfg, s.fields, [m]) == [StatePublication(cfg, payload.value)] + StateSeries(cfg, merged, []);
  }

  lemma {:induction false} MessagesDone(cfg: Config, s: Pipe, messages: seq<D.Message>)
    requires MessagesStep(cfg, s, messages).ok
    ensures var t := MessagesStep(cfg, s, messages).pipe;
            Did(cfg, s, t, messages) && t.flows == s.flows && t.decoders == s.decoders
    decreases |messages|
  {
    hide StatePayload;
    if messages == [] {
      DidNothing(cfg, s, s);
    } else {
      var first := MessageStep(cfg, s, messages[0]).pipe;
      MessageDone(cfg, s, messages[0]);
      MessagesDone(cfg, first, messages[1..]);
      assert messages == [messages[0]] + messages[1..];
      DidBoth(cfg, s, first, MessagesStep(cfg, first, messages[1..]).pipe, [messages[0]], messages[1..]);
    }
  }

  // ---------------------------------------------------------------- chunks without failures

  /** The chunks of one packet: its flow's decoder takes them in turn, and all messages are processed. */
  lemma {:induction false} ChunksDone(cfg: Config, s: Pipe, id: string, chunks: seq<Bytes>)
    requires ChunksStep(cfg, s, Tagged(id, chunks)).ok
    ensures var t := ChunksStep(cfg, s, Tagged(id, chunks)).pipe;
            var fed := P.Feed(cfg.unmarshal, DecoderOf(s.decoders, id), chunks);
            Did(cfg, s, t, fed.messages) && t.flows == s.flows &&
            DecoderOf(t.decoders, id) == fed.rest &&
            forall other | other != id :: DecoderOf(t.decoders, other) == DecoderOf(s.decoders, other)
    decreases |chunks|
  {
    hide D.Pushed, Did, MessagesStep;
    if chunks == [] {
      DidNothing(cfg, s, s);
    } else {
      var tagged := Tagged(id, chunks);
      assert tagged[0] == StreamChunk(id, chunks[0]) && tagged[1..] == Tagged(id, chunks[1..]);
      var (decoded, messages) := Decode(cfg, s, tagged[0]);
      var first := MessagesStep(cfg, decoded, messages).pipe;
      MessagesDone(cfg, decoded, messages);
      assert Did(cfg, s, first, messages) by {
        DidSame(cfg, s, decoded, first, messages);
      }
      ChunksDone(cfg, first, id, chunks[1..]);
      var rest := P.Feed(cfg.unmarshal, DecoderOf(first.decoders, id), chunks[1..]);
      DidBoth(cfg, s, first, ChunksStep(cfg, first, tagged[1..]).pipe, messages, rest.messages);
    }
  }

  lemma DidSame(cfg: Config, s: Pipe, decoded: Pipe, t: Pipe, messages: seq<D.Message>)
    requires Did(cfg, decoded, t, messages) && decoded.fields == s.fields && decoded.published == s.published
    ensures Did(cfg, s, t, messages)
  {
  }

  // ---------------------------------------------------------------- packets and flows

  /** A packet that brings stream data: from the source to the cloud's port, with a payload. */
  predicate Carries(cfg: Config, p: Packet) {
    p.srcIP == cfg.sourceIP && p.dstIP == cfg.cloudIP && p.dstPort == cfg.cloudPort && |p.payload| > 0
  }

  /** What one packet delivers from its flow, and what the flow's decoder makes of it. */
  function DeliveredBy(cfg: Config, s: Pipe, p: Packet): FlowStep {
    PushFlow(FlowOf(s.flows, FlowIDOf(cfg, p)), p.seqNo, p.payload)
  }

  function DecodedBy(cfg: Config, s: Pipe, p: Packet): D.Parsed {
    P.Feed(cfg.unmarshal, DecoderOf(s.decoders, FlowIDOf(cfg, p)), DeliveredBy(cfg, s, p).chunks)
  }

  lemma CarryingPacketDone(cfg: Config, s: Pipe, p: Packet)
    requires Carries(cfg, p) && PacketStep(cfg, s, p).ok
    ensures var t := PacketStep(cfg, s, p).pipe;
            var id := FlowIDOf(cfg, p);
            Did(cfg, s, t, DecodedBy(cfg, s, p).messages) &&
            t.flows == s.flows[id := DeliveredBy(cfg, s, p).flow] &&
            DecoderOf(t.decoders, id) == DecodedBy(cfg, s, p).rest &&
            forall other | other != id :: DecoderOf(t.decoders, other) == DecoderOf(s.decoders, other)
  {
    hide Did, PushFlow, P.Feed, ChunksStep, Tagged;
    var counted := Count(s, p);
    var step := PushSegment(s.flows, SegmentOf(cfg, p));
    var start := counted.(flows := step.flows);
    ChunksDone(cfg, start, FlowIDOf(cfg, p), DeliveredBy(cfg, s, p).chunks);
    DidSame(cfg, s, start, PacketStep(cfg, s, p).pipe, DecodedBy(cfg, s, p).messages);
  }

  lemma IdlePacketDone(cfg: Config, s: Pipe, p: Packet)
    requires !Carries(cfg, p)
    ensures var t := PacketStep(cfg, s, p).pipe;
            PacketStep(cfg, s, p).ok &&
            t.flows == s.flows && t.decoders == s.decoders && t.fields == s.fields && t.published == s.published
  {
  }

  // ---------------------------------------------------------------- the trace of a run

  /** A message and the flow it came from. */
  datatype Event = Event(flowID: string, message: D.Message)

  function Events(id: string, messages: seq<D.Message>): seq<Event> {
    if messages == [] then [] else [Event(id, messages[0])] + Events(id, messages[1..])
  }

  /** Every message that a run decodes, in the order in which they are processed. */
  ghost function Trace(cfg: Config, s: Pipe, packets: seq<Packet>): seq<Event>
    decreases |packets|
  {
    if packets == [] then []
    else
      var p := packets[0];
      (if Carries(cfg, p) then Events(FlowIDOf(cfg, p), DecodedBy(cfg, s, p).messages) else [])
      + Trace(cfg, PacketStep(cfg, s, p).pipe, packets[1..])
  }

  function Messages(events: seq<Event>): seq<D.Message> {
    if events == [] then [] else [events[0].message] + Messages(events[1..])
  }

  /** The messages of one flow. */
  function OfFlow(events: seq<Event>, id: string): seq<D.Message> {
    if events == [] then []
    else (if events[0].flowID == id then [events[0].message] else []) + OfFlow(events[1..], id)
  }

  lemma {:induction false} MessagesOfEvents(id: string, messages: seq<D.Message>, rest: seq<Event>)
    ensures Messages(Events(id, messages) + rest) == messages + Messages(rest)
    decreases |messages|
  {
    if messages == [] {
      assert Events(id, messages) + rest == rest;
    } else {
      var events := Events(id, messages) + rest;
      var later := Events(id, messages[1..]) + rest;
      assert events[0] == Event(id, messages[0]) && events[1..] == later;
      MessagesOfEvents(id, messages[1..], rest);
      assert Messages(events) == [messages[0]] + Messages(later);
      P.AppendAssociates([messages[0]], messages[1..], Messages(rest));
      assert [messages[0]] + messages[1..] == messages;
    }
  }

  lemma {:induction false} FlowOfEvents(id: string, messages: seq<D.Message>, rest: seq<Event>, other: string)
    ensures OfFlow(Events(id, messages) + rest, other) == (if other == id then messages else []) + OfFlow(rest, other)
    decreases |messages|
  {
    if messages == [] {
      assert Events(id, messages) + rest == rest;
    } else {
      var later := Events(id, messages[1..]) + rest;
      assert Events(id, messages) + rest == [Event(id, messages[0])] + later;
      FlowOfEvents(id, messages[1..], rest, other);
      FlowOfOne(Event(id, messages[0]), later, other);
      if other == id {
        P.AppendAssociates([messages[0]], messages[1..], OfFlow(rest, other));
        assert [messages[0]] + messages[1..] == messages;
      }
    }
  }

  lemma FlowOfOne(event: Event, later: seq<Event>, other: string)
    ensures OfFlow([event] + later, other) ==
            if event.flowID == other then [event.message] + OfFlow(later, other) else OfFlow(later, other)
  {
    var events := [event] + later;
    assert events[0] == event && events[1..] == later;
    assert [] + OfFlow(later, other) == OfFlow(later, other);
  }

  /**
   * The published states are a function of the message history alone: in a run without failures
   * they are the running last-writer-wins merges of the decoded messages, in order, one each.
   */
  lemma {:induction false} PublishedIsHistory(cfg: Config, s: Pipe, packets: seq<Packet>)
    requires Run(cfg, s, packets).ok
    ensures var t := Run(cfg, s, packets).pipe;
            var history := Messages(Trace(cfg, s, packets));
            t.fields == FoldFields(s.fields, history) &&
            t.published == s.published + (if cfg.hasPublisher then StateSeries(cfg, s.fields, history) else []) &&
            |StateSeries(cfg, s.fields, history)| == |history|
    decreases |packets|
  {
    hide PacketStep, DecodedBy, StateSeries;
    if packets == [] {
      assert StateSeries(cfg, s.fields, []) == [] by {
        SeriesOfNothing(cfg, s.fields);
      }
    } else {
      var p := packets[0];
      var t := PacketStep(cfg, s, p).pipe;
      PublishedIsHistory(cfg, t, packets[1..]);
      var rest := Trace(cfg, t, packets[1..]);
      if Carries(cfg, p) {
        CarryingPacketDone(cfg, s, p);
        MessagesOfEvents(FlowIDOf(cfg, p), DecodedBy(cfg, s, p).messages, rest);
        DidBoth(cfg, s, t, Run(cfg, t, packets[1..]).pipe, DecodedBy(cfg, s, p).messages, Messages(rest));
      } else {
        IdlePacketDone(cfg, s, p);
        assert [] + rest == rest;
      }
    }
  }

  lemma SeriesOfNothing(cfg: Config, fields: FieldMap)
    ensures StateSeries(cfg, fields, []) == []
  {
  }

  // ---------------------------------------------------------------- flow isolation

  /** A run fails only if the encoder or the publisher does. */
  ghost predicate NothingFails(cfg: Config) {
    (forall payload: S.Payload :: cfg.encode(payload).Some?) && (forall n: nat :: cfg.accepts(n))
  }

  lemma {:induction false} MessagesSucceed(cfg: Config, s: Pipe, messages: seq<D.Message>)
    requires NothingFails(cfg)
    ensures MessagesStep(cfg, s, messages).ok
    decreases |messages|
  {
    hide S.Built;
    if messages != [] {
      MessagesSucceed(cfg, MessageStep(cfg, s, messages[0]).pipe, messages[1..]);
    }
  }

  lemma {:induction false} ChunksSucceed(cfg: Config, s: Pipe, chunks: seq<StreamChunk>)
    requires NothingFails(cfg)
    ensures ChunksStep(cfg, s, chunks).ok
    decreases |chunks|
  {
    hide MessagesStep, Decode, NothingFails;
    if chunks != [] {
      var (decoded, messages) := Decode(cfg, s, chunks[0]);
      MessagesSucceed(cfg, decoded, messages);
      ChunksSucceed(cfg, ChunkStep(cfg, s, chunks[0]).pipe, chunks[1..]);
    }
  }

  /** Without encoder and publisher failures every run succeeds, whatever the packets contain. */
  lemma {:induction false} RunSucceeds(cfg: Config, s: Pipe, packets: seq<Packet>)
    requires NothingFails(cfg)
    ensures Run(cfg, s, packets).ok
    decreases |packets|
  {
    hide ChunksStep, PushSegment, NothingFails;
    if packets != [] {
      var p := packets[0];
      var step := PushSegment(s.flows, SegmentOf(cfg, p));
      ChunksSucceed(cfg, Count(s, p).(flows := step.flows), step.chunks);
      RunSucceeds(cfg, PacketStep(cfg, s, p).pipe, packets[1..]);
    }
  }

  /** The stream data that a run of packets brings to one flow. */
  function ArrivalsOf(cfg: Config, packets: seq<Packet>, id: string): seq<Arrival>
    decreases |packets|
  {
    if packets == [] then []
    else
      var p := packets[0];
      (if Carries(cfg, p) && FlowIDOf(cfg, p) == id then [Arrival(p.seqNo, p.payload)] else [])
      + ArrivalsOf(cfg, packets[1..], id)
  }

  /**
   * Flows do not interfere: in any interleaving without failures, each flow ends up in the state,
   * delivers the chunks and yields the messages that its own segments alone would have produced.
   */
  lemma {:induction false} FlowsAreIsolated(cfg: Config, s: Pipe, packets: seq<Packet>, id: string)
    requires Run(cfg, s, packets).ok
    ensures var t := Run(cfg, s, packets).pipe;
            var alone := RunFlow(FlowOf(s.flows, id), ArrivalsOf(cfg, packets, id));
            var fed := P.Feed(cfg.unmarshal, DecoderOf(s.decoders, id), alone.chunks);
            FlowOf(t.flows, id) == alone.flow &&
            DecoderOf(t.decoders, id) == fed.rest &&
            OfFlow(Trace(cfg, s, packets), id) == fed.messages
    decreases |packets|
  {
    hide PacketStep, PushFlow, P.Feed;
    if packets == [] {
      FeedNothing(cfg.unmarshal, DecoderOf(s.decoders, id));
    } else {
      var p := packets[0];
      var t := PacketStep(cfg, s, p).pipe;
      FlowsAreIsolated(cfg, t, packets[1..], id);
      var rest := Trace(cfg, t, packets[1..]);
      if Carries(cfg, p) {
        var decoded := DecodedBy(cfg, s, p);
        CarryingPacketDone(cfg, s, p);
        FlowOfEvents(FlowIDOf(cfg, p), decoded.messages, rest, id);
        if FlowIDOf(cfg, p) == id {
          IsolatedStep(cfg, s, p, packets[1..]);
        } else {
          assert [] + ArrivalsOf(cfg, packets[1..], id) == ArrivalsOf(cfg, packets[1..], id);
          assert [] + OfFlow(rest, id) == OfFlow(rest, id);
        }
      } else {
        IdlePacketDone(cfg, s, p);
        assert [] + rest == rest;
        assert [] + ArrivalsOf(cfg, packets[1..], id) == ArrivalsOf(cfg, packets[1..], id);
      }
    }
  }

  lemma FeedNothing(unmarshal: Unmarshal, buffer: Bytes)
    ensures P.Feed(unmarshal, buffer, []) == D.Parsed([], buffer)
  {
  }

  /** The first segment of a flow and the rest of its run, put together. */
  lemma IsolatedStep(cfg: Config, s: Pipe, p: Packet, packets: seq<Packet>)
    requires Carries(cfg, p)
    ensures var id := FlowIDOf(cfg, p);
            var later := ArrivalsOf(cfg, packets, id);
            var step := DeliveredBy(cfg, s, p);
            var rest := RunFlow(step.flow, later);
            var alone := RunFlow(FlowOf(s.flows, id), [Arrival(p.seqNo, p.payload)] + later);
            var decoded := DecodedBy(cfg, s, p);
            var fed := P.Feed(cfg.unmarshal, decoded.rest, rest.chunks);
            ArrivalsOf(cfg, [p] + packets, id) == [Arrival(p.seqNo, p.payload)] + later &&
            alone == FlowStep(rest.flow, step.chunks + rest.chunks) &&
            P.Feed(cfg.unmarshal, DecoderOf(s.decoders, id), alone.chunks) ==
              D.Parsed(decoded.messages + fed.messages, fed.rest)
  {
    hide PushFlow, P.Feed;
    var id := FlowIDOf(cfg, p);
    var later := ArrivalsOf(cfg, packets, id);
    var step := DeliveredBy(cfg, s, p);
    var arrivals := [Arrival(p.seqNo, p.payload)] + later;
    assert ([p] + packets)[0] == p && ([p] + packets)[1..] == packets;
    assert arrivals[0] == Arrival(p.seqNo, p.payload) && arrivals[1..] == later;
    assert Wrap(p.seqNo) == p.seqNo;
    P.FeedAppend(cfg.unmarshal, DecoderOf(s.decoders, id), step.chunks, RunFlow(step.flow, later).chunks);
  }

  // ---------------------------------------------------------------- packet counters

  /** The packets between the source and the cloud's port, in either direction. */
  function Exchanged(cfg: Config, packets: seq<Packet>): seq<Packet> {
    if packets == [] then []
    else
      var p := packets[0];
      (if (p.srcIP == cfg.sourceIP && p.dstIP == cfg.cloudIP && p.dstPort == cfg.cloudPort) ||
          (p.srcIP == cfg.cloudIP && p.dstIP == cfg.sourceIP && p.srcPort == cfg.cloudPort)
       then [p] else [])
      + Exchanged(cfg, packets[1..])
  }

  function Loaded(packets: seq<Packet>): seq<Packet> {
    if packets == [] then [] else (if |packets[0].payload| > 0 then [packets[0]] else []) + Loaded(packets[1..])
  }

  function PayloadSize(packets: seq<Packet>): nat {
    if packets == [] then 0 else |packets[0].payload| + PayloadSize(packets[1..])
  }

  /** A run counts exactly the packets that were exchanged, and their payloads. */
  ghost predicate Counted(cfg: Config, s: Pipe, packets: seq<Packet>, t: Pipe) {
    var exchanged := Exchanged(cfg, packets);
    && t.summary.matchedPackets == s.summary.matchedPackets + |exchanged|
    && t.summary.payloadPackets == s.summary.payloadPackets + |Loaded(exchanged)|
    && t.summary.payloadBytes == s.summary.payloadBytes + PayloadSize(exchanged)
  }

  lemma {:induction false} RunCounts(cfg: Config, s: Pipe, packets: seq<Packet>)
    requires Run(cfg, s, packets).ok
    ensures Counted(cfg, s, packets, Run(cfg, s, packets).pipe)
    decreases |packets|
  {
    hide PacketStep;
    if packets != [] {
      var p := packets[0];
      var t := PacketStep(cfg, s, p).pipe;
      PacketMeans(cfg, s, p);
      RunCounts(cfg, t, packets[1..]);
      var rest := Exchanged(cfg, packets[1..]);
      assert ([p] + rest)[1..] == rest;
      assert [] + rest == rest;
    }
  }
}
