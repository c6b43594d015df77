/** The assembler keeps flows apart, whatever segments arrive and in whatever interleaving. */
module FlowIsolation {
  import opened Bytes
  import opened Reassembly
  import opened ReassemblyRefinement

  /** A run of the assembler: the final flows and all chunks in order of delivery. */
  function RunSegments(flows: map<string, Flow>, segments: seq<Segment>): AssemblerStep
    decreases |segments|
  {
    if segments == [] then AssemblerStep(flows, [])
    else
      var step := PushSegment(flows, segments[0]);
      var rest := RunSegments(step.flows, segments[1..]);
      AssemblerStep(rest.flows, step.chunks + rest.chunks)
  }

  /** The segments of one flow. */
  function SegmentsOf(segments: seq<Segment>, id: string): seq<Arrival> {
    if segments == [] then []
    else
      (if segments[0].flowID == id then [Arrival(segments[0].seqNo, segments[0].data)] else [])
      + SegmentsOf(segments[1..], id)
  }

  /** The chunks of one flow. */
  function ChunksOf(chunks: seq<StreamChunk>, id: string): seq<Bytes> {
    if chunks == [] then []
    else (if chunks[0].flowID == id then [chunks[0].data] else []) + ChunksOf(chunks[1..], id)
  }

  lemma {:induction false} ChunksOfTagged(id: string, chunks: seq<Bytes>, rest: seq<StreamChunk>, other: string)
    ensures ChunksOf(Tagged(id, chunks) + rest, other) == (if other == id then chunks else []) + ChunksOf(rest, other)
    decreases |chunks|
  {
    var all := Tagged(id, chunks) + rest;
    if chunks == [] {
      assert all == rest;
    } else {
      var later := Tagged(id, chunks[1..]) + rest;
      assert all[0] == StreamChunk(id, chunks[0]) && all[1..] == later;
      ChunksOfTagged(id, chunks[1..], rest, other);
      if other == id {
        assert ChunksOf(all, other) == [chunks[0]] + ChunksOf(later, other);
      } else {
        assert ChunksOf(all, other) == [] + ChunksOf(later, other);
      }
    }
  }

  /**
   * In any interleaving of any segments, each flow ends up in the state and delivers the chunks
   * that its own segments alone would have produced.
   */
  lemma {:induction false} AssemblerIsolatesFlows(flows: map<string, Flow>, segments: seq<Segment>, id: string)
    ensures var out := RunSegments(flows, segments);
            var alone := RunFlow(FlowOf(flows, id), SegmentsOf(segments, id));
            FlowOf(out.flows, id) == alone.flow && ChunksOf(out.chunks, id) == alone.chunks
    decreases |segments|
  {
    hide PushFlow, Tagged;
    if segments != [] {
      var segment := segments[0];
      var step := PushSegment(flows, segment);
      var rest := RunSegments(step.flows, segments[1..]);
      AssemblerIsolatesFlows(step.flows, segments[1..], id);
      var delivered := PushFlow(FlowOf(flows, segment.flowID), segment.seqNo, segment.data);
      EmptyPush(FlowOf(flows, segment.flowID), segment.seqNo);
      assert step.chunks == Tagged(segment.flowID, delivered.chunks) by {
        TaggedNone(segment.flowID);
      }
      ChunksOfTagged(segment.flowID, delivered.chunks, rest.chunks, id);
      if segment.flowID == id {
        OneMore(FlowOf(flows, id), segment, SegmentsOf(segments[1..], id));
      } else {
        assert [] + SegmentsOf(segments[1..], id) == SegmentsOf(segments[1..], id);
        assert [] + ChunksOf(rest.chunks, id) == ChunksOf(rest.chunks, id);
      }
    }
  }

  lemma EmptyPush(f: Flow, seqNo: uint32)
    ensures PushFlow(f, seqNo, []) == FlowStep(f, [])
  {
  }

  lemma TaggedNone(id: string)
    ensures Tagged(id, []) == []
  {
  }

  lemma OneMore(f: Flow, segment: Segment, later: seq<Arrival>)
    ensures var step := PushFlow(f, segment.seqNo, segment.data);
            var rest := RunFlow(step.flow, later);
            RunFlow(f, [Arrival(segment.seqNo, segment.data)] + later) == FlowStep(rest.flow, step.chunks + rest.chunks)
  {
    hide PushFlow;
    var arrivals := [Arrival(segment.seqNo, segment.data)] + later;
    assert arrivals[0] == Arrival(segment.seqNo, segment.data) && arrivals[1..] == later;
    assert Wrap(segment.seqNo) == segment.seqNo;
  }
}
