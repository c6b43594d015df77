/** From captured segments to published states: reassembly, decoding and merging composed. */
module PipelineEndToEnd {
  import opened Bytes
  import opened Fields
  import opened Reassembly
  import opened ReassemblyRefinement
  import C = ReassemblyCompleteness
  import opened Pipeline
  import opened PipelineHistory
  import D = Decoder
  import P = DecoderProperties
  import R = DecoderStreams

  /** What a capture sees of the arrivals: sequence numbers instead of positions. */
  function OnWire(arrivals: seq<Arrival>): seq<Arrival> {
    seq(|arrivals|, i requires 0 <= i < |arrivals| => Arrival(Wrap(arrivals[i].pos), arrivals[i].data))
  }

  lemma {:induction false} WireIsEnough(f: Flow, arrivals: seq<Arrival>)
    ensures RunFlow(f, OnWire(arrivals)) == RunFlow(f, arrivals)
    decreases |arrivals|
  {
    hide PushFlow;
    if arrivals != [] {
      assert OnWire(arrivals)[1..] == OnWire(arrivals[1..]);
      assert Wrap(Wrap(arrivals[0].pos)) == Wrap(arrivals[0].pos);
      WireIsEnough(PushFlow(f, Wrap(arrivals[0].pos), arrivals[0].data).flow, arrivals[1..]);
    }
  }

  /** All stream data comes from one port of the source; other packets may be mixed in. */
  predicate SingleFlow(cfg: Config, packets: seq<Packet>, port: int) {
    forall i | 0 <= i < |packets| && Carries(cfg, packets[i]) :: packets[i].srcPort == port
  }

  /** What the packets from the source to the cloud's port bring, in order. */
  function StreamData(cfg: Config, packets: seq<Packet>): seq<Arrival> {
    if packets == [] then []
    else
      var p := packets[0];
      (if Carries(cfg, p) then [Arrival(p.seqNo, p.payload)] else []) + StreamData(cfg, packets[1..])
  }

  /** The flow of that port. */
  function FlowFrom(cfg: Config, port: int): string {
    (cfg.flowID)(cfg.sourceIP, port, cfg.cloudIP, cfg.cloudPort)
  }

  lemma {:induction false} SingleFlowArrivals(cfg: Config, packets: seq<Packet>, port: int)
    requires SingleFlow(cfg, packets, port)
    ensures ArrivalsOf(cfg, packets, FlowFrom(cfg, port)) == StreamData(cfg, packets)
    decreases |packets|
  {
    if packets != [] {
      assert forall i | 0 <= i < |packets| - 1 :: packets[1..][i] == packets[i + 1];
      SingleFlowArrivals(cfg, packets[1..], port);
    }
  }

  predicate AllFrom(events: seq<Event>, id: string) {
    forall i | 0 <= i < |events| :: events[i].flowID == id
  }

  lemma {:induction false} EventsFrom(id: string, messages: seq<D.Message>)
    ensures AllFrom(Events(id, messages), id)
  {
    if messages != [] {
      EventsFrom(id, messages[1..]);
    }
  }

  lemma {:induction false} TraceFrom(cfg: Config, s: Pipe, packets: seq<Packet>, port: int)
    requires SingleFlow(cfg, packets, port)
    ensures AllFrom(Trace(cfg, s, packets), FlowFrom(cfg, port))
    decreases |packets|
  {
    hide PacketStep, DecodedBy;
    if packets != [] {
      assert forall i | 0 <= i < |packets| - 1 :: packets[1..][i] == packets[i + 1];
      TraceFrom(cfg, PacketStep(cfg, s, packets[0]).pipe, packets[1..], port);
      EventsFrom(FlowFrom(cfg, port), DecodedBy(cfg, s, packets[0]).messages);
    }
  }

  lemma {:induction false} OneFlowIsAll(events: seq<Event>, id: string)
    requires AllFrom(events, id)
    ensures Messages(events) == OfFlow(events, id)
  {
    if events != [] {
      OneFlowIsAll(events[1..], id);
    }
  }

  /** What the segments received so far let the decoder see: the stream up to the first missing one. */
  function Arrived(c: C.Cut, order: seq<nat>): Bytes {
    Concat(c.segments[..C.FirstMissing(c, C.Received(order), 0)])
  }

  /** The whole path of one flow's bytes, from segments in any order to decoded messages. */
  lemma ArrivedIsDecoded(unmarshal: Unmarshal, records: seq<R.Record>, trailer: Bytes, c: C.Cut, order: seq<nat>)
    requires R.ValidRecords(records) && R.ValidTrailer(trailer)
    requires Concat(c.segments) == R.Stream(records) + trailer
    requires C.ValidCut(c) && C.ValidOrder(c, order) && order != [] && order[0] == 0
    requires AllNear(NEW_FLOW, C.PosOf(c, 0), C.Arrivals(c, order))
    ensures var chunks := RunFlow(NEW_FLOW, C.Arrivals(c, order)).chunks;
            P.Feed(unmarshal, [], chunks) == D.Parse(unmarshal, Arrived(c, order))
    ensures D.Parse(unmarshal, Arrived(c, order)).messages <= R.Yields(unmarshal, records)
    ensures (forall i | 0 <= i < |c.segments| :: i in C.Received(order)) ==>
              D.Parse(unmarshal, Arrived(c, order)) == D.Parsed(R.Yields(unmarshal, records), trailer)
  {
    hide D.Parse, D.NextStep, PushFlow, AllNear, R.RecordBytes, R.Yield;
    C.ReassemblyIsComplete(c, order);
    var e := C.FirstMissing(c, C.Received(order), 0);
    var chunks := c.segments[..e];
    assert c.segments[0..e] == chunks;
    P.ConcatPrefix(c.segments, e);
    R.StreamFed(unmarshal, records, trailer, chunks, Concat(c.segments[e..]));
    P.ParseAppend(unmarshal, Arrived(c, order), Concat(c.segments[e..]));
    R.ParseWholeStream(unmarshal, records, trailer);
    if forall i | 0 <= i < |c.segments| :: i in C.Received(order) {
      assert e == |c.segments|;
      assert c.segments[..e] == c.segments;
    }
  }

  /**
   * End to end. One outbound flow carries a stream of records, cut at fixed boundaries into segments
   * that arrive in any order and any number of times, the first segment first and each within 2^31
   * of the position awaited, with any packets that are not from the source to the cloud's port, or
   * bring no payload, in between; of these only the ones between the two are counted. If no publish and no
   * encoding fails, the published states are at every moment the running merges of the messages in
   * the contiguous part of the stream received so far, a prefix of the messages of all intact
   * accepted records in stream order, and all of them once every segment has arrived.
   */
  lemma CaptureToPublish(cfg: Config, earlier: seq<Publication>, packets: seq<Packet>, port: int,
                         records: seq<R.Record>, trailer: Bytes, c: C.Cut, order: seq<nat>)
    requires R.ValidRecords(records) && R.ValidTrailer(trailer)
    requires Concat(c.segments) == R.Stream(records) + trailer
    requires C.ValidCut(c) && C.ValidOrder(c, order) && order != [] && order[0] == 0
    requires AllNear(NEW_FLOW, C.PosOf(c, 0), C.Arrivals(c, order))
    requires SingleFlow(cfg, packets, port) && StreamData(cfg, packets) == OnWire(C.Arrivals(c, order))
    requires Run(cfg, NewPipe(earlier), packets).ok && cfg.hasPublisher
    ensures var t := Run(cfg, NewPipe(earlier), packets).pipe;
            var messages := D.Parse(cfg.unmarshal, Arrived(c, order)).messages;
            t.published == earlier + StateSeries(cfg, map[], messages) && t.fields == FoldFields(map[], messages) &&
            messages <= R.Yields(cfg.unmarshal, records) && Counted(cfg, NewPipe(earlier), packets, t) &&
            |t.published| == |earlier| + |messages| &&
            forall i | 1 <= i <= |messages| ::
              Publishes(cfg, FoldFields(map[], messages[..i]), t.published[|earlier| + i - 1])
    ensures (forall i | 0 <= i < |c.segments| :: i in C.Received(order)) ==>
              Run(cfg, NewPipe(earlier), packets).pipe.published ==
              earlier + StateSeries(cfg, map[], R.Yields(cfg.unmarshal, records))
  {
    hide D.Parse, P.Feed, PushFlow, PacketStep, AllNear, StateSeries, R.Yields, Arrived, FoldFields;
    hide Counted, Publishes, PayloadAfter;
    var start, id := NewPipe(earlier), FlowFrom(cfg, port);
    RunCounts(cfg, start, packets);
    SingleFlowArrivals(cfg, packets, port);
    PublishedIsHistory(cfg, start, packets);
    var history := Messages(Trace(cfg, start, packets));
    WholeSeries(cfg, map[], history);
    SeriesIsRunningMerge(cfg, map[], history);
    FlowsAreIsolated(cfg, start, packets, id);
    TraceFrom(cfg, start, packets, port);
    OneFlowIsAll(Trace(cfg, start, packets), id);
    WireIsEnough(NEW_FLOW, C.Arrivals(c, order));
    ArrivedIsDecoded(cfg.unmarshal, records, trailer, c, order);
    assert FlowOf(start.flows, id) == NEW_FLOW && DecoderOf(start.decoders, id) == [];
  }
}
