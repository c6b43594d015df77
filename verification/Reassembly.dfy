/**
 * TCP stream reassembly of internal/reassembly/reassembly.go: per flow, a 32-bit next sequence
 * number (section 3.4 of RFC 9293) and a map of segments that arrived too early.
 */
module Reassembly {
  import opened Bytes

  // ---------------------------------------------------------------- sequence numbers

  /** The 32-bit sequence number of an unbounded stream position. */
  function Wrap(n: int): uint32 {
    n % UINT32_RANGE
  }

  /** `int32(a-b) < 0`. */
  predicate SeqBefore(a: uint32, b: uint32) {
    Wrap(a - b) >= INT32_RANGE
  }

  function SeqDistance(from: uint32, to: uint32): uint32 {
    Wrap(to - from)
  }

  /** `uint32(len(data))`. */
  function Length32(data: Bytes): uint32 {
    Wrap(|data|)
  }

  // ---------------------------------------------------------------- one flow

  datatype Segment = Segment(flowID: string, seqNo: uint32, data: Bytes)

  datatype Flow = Flow(nextSeq: uint32, started: bool, buffered: map<uint32, Bytes>, bytesRead: int)

  /** A flow and the chunks it has just delivered. */
  datatype FlowStep = FlowStep(flow: Flow, chunks: seq<Bytes>)

  const NEW_FLOW: Flow := Flow(0, false, map[], 0)

  function Advanced(f: Flow, length: uint32): Flow {
    f.(nextSeq := Wrap(f.nextSeq + length), bytesRead := f.bytesRead + length)
  }

  /** Deliver buffered segments as long as one starts exactly at the next sequence number. */
  function Drain(f: Flow): FlowStep
    decreases |f.buffered|
  {
    if f.nextSeq !in f.buffered then FlowStep(f, [])
    else
      var data := f.buffered[f.nextSeq];
      var rest := Drain(Advanced(f.(buffered := f.buffered - {f.nextSeq}), Length32(data)));
      FlowStep(rest.flow, [data] + rest.chunks)
  }

  /** A segment that starts at the next sequence number is delivered, and unblocks others. */
  function Deliver(f: Flow, data: Bytes): FlowStep {
    var rest := Drain(Advanced(f, Length32(data)));
    FlowStep(rest.flow, [data] + rest.chunks)
  }

  /** A segment that starts later waits; the first one stored at a sequence number stays. */
  function Hold(f: Flow, seqNo: uint32, data: Bytes): Flow {
    if seqNo in f.buffered then f else f.(buffered := f.buffered[seqNo := data])
  }

  function PushStarted(f: Flow, seqNo: uint32, data: Bytes): FlowStep {
    if SeqBefore(seqNo, f.nextSeq) then
      var alreadyRead := SeqDistance(seqNo, f.nextSeq);
      if alreadyRead >= Length32(data) then FlowStep(f, [])
      else Deliver(f, data[alreadyRead..])
    else if seqNo != f.nextSeq then FlowStep(Hold(f, seqNo, data), [])
    else Deliver(f, data)
  }

  function Start(f: Flow, seqNo: uint32): Flow {
    if f.started then f else f.(started := true, nextSeq := seqNo)
  }

  /** One segment of one flow; the first non-empty one starts the stream. */
  function PushFlow(f: Flow, seqNo: uint32, data: Bytes): FlowStep {
    if data == [] then FlowStep(f, []) else PushStarted(Start(f, seqNo), seqNo, data)
  }

  // ---------------------------------------------------------------- all flows

  datatype StreamChunk = StreamChunk(flowID: string, data: Bytes)

  datatype AssemblerStep = AssemblerStep(flows: map<string, Flow>, chunks: seq<StreamChunk>)

  function FlowOf(flows: map<string, Flow>, flowID: string): Flow {
    if flowID in flows then flows[flowID] else NEW_FLOW
  }

  function Tagged(flowID: string, chunks: seq<Bytes>): seq<StreamChunk> {
    seq(|chunks|, i requires 0 <= i < |chunks| => StreamChunk(flowID, chunks[i]))
  }

  function PushSegment(flows: map<string, Flow>, segment: Segment): AssemblerStep {
    if segment.data == [] then AssemblerStep(flows, [])
    else
      var step := PushFlow(FlowOf(flows, segment.flowID), segment.seqNo, segment.data);
      AssemblerStep(flows[segment.flowID := step.flow], Tagged(segment.flowID, step.chunks))
  }

  // ---------------------------------------------------------------- the classes

  class FlowState {
    var nextSeq: uint32
    var started: bool
    var buffered: map<uint32, Bytes>
    var bytesRead: int

    function View(): Flow
      reads this
    {
      Flow(nextSeq, started, buffered, bytesRead)
    }

    constructor ()
      ensures View() == NEW_FLOW
    {
      nextSeq, started, buffered, bytesRead := 0, false, map[], 0;
    }

    method Push(seqNo: uint32, data: Bytes) returns (chunks: seq<Bytes>)
      modifies this
      ensures FlowStep(View(), chunks) == PushStarted(old(View()), seqNo, data)
    {
      var first, rest := seqNo, data;
      if SeqBefore(first, nextSeq) {
        var alreadyRead := SeqDistance(first, nextSeq);
        if alreadyRead >= Length32(rest) {
          return [];
        }
        rest := rest[alreadyRead..];
        first := nextSeq;
      }

      if first != nextSeq {
        if first !in buffered {
          buffered := buffered[first := rest];
        }
        return [];
      }

      chunks := [rest];
      Advance(Length32(rest));
      ghost var start := View();
      while nextSeq in buffered
        invariant chunks + Drain(View()).chunks == [rest] + Drain(start).chunks
        invariant Drain(View()).flow == Drain(start).flow
        decreases |buffered|
      {
        var next := buffered[nextSeq];
        buffered := buffered - {nextSeq};
        chunks := chunks + [next];
        Advance(Length32(next));
      }
    }

    method Advance(length: uint32)
      modifies this
      ensures View() == Advanced(old(View()), length)
    {
      nextSeq := Wrap(nextSeq + length);
      bytesRead := bytesRead + length;
    }
  }

  class Assembler {
    var flows: map<string, FlowState>

    /** No two flows share their state. */
    ghost predicate Valid()
      reads this
    {
      forall a, b | a in flows && b in flows && a != b :: flows[a] != flows[b]
    }

    function View(): map<string, Flow>
      reads this, flows.Values
    {
      map id | id in flows :: flows[id].View()
    }

    constructor ()
      ensures Valid() && flows == map[]
    {
      flows := map[];
    }

    method Push(segment: Segment) returns (out: seq<StreamChunk>)
      requires Valid()
      modifies this, flows.Values
      ensures Valid()
      ensures AssemblerStep(View(), out) == PushSegment(old(View()), segment)
      ensures fresh(flows.Values - old(flows.Values))
    {
      hide PushFlow, Tagged;
      if |segment.data| == 0 {
        return [];
      }
      ghost var before := View();
      var state := Lookup(segment.flowID);
      assert View() == before[segment.flowID := FlowOf(before, segment.flowID)];
      var chunks := PushInto(state, segment);
      assert View() == before[segment.flowID := state.View()];
      out := Tag(segment.flowID, chunks);
    }

    /** Start the flow if need be and push the segment; only this flow's state changes. */
    method PushInto(state: FlowState, segment: Segment) returns (chunks: seq<Bytes>)
      requires Valid() && segment.flowID in flows && state == flows[segment.flowID]
      requires segment.data != []
      modifies state
      ensures FlowStep(state.View(), chunks) == PushFlow(old(state.View()), segment.seqNo, segment.data)
      ensures View() == old(View())[segment.flowID := state.View()]
    {
      hide PushStarted;
      ghost var before := View();
      ghost var f := state.View();
      if !state.started {
        state.started := true;
        state.nextSeq := segment.seqNo;
      }
      assert state.View() == Start(f, segment.seqNo);
      chunks := state.Push(segment.seqNo, segment.data);
      assert forall id | id in flows && id != segment.flowID :: flows[id].View() == before[id];
    }

    static method Tag(flowID: string, chunks: seq<Bytes>) returns (out: seq<StreamChunk>)
      ensures out == Tagged(flowID, chunks)
    {
      out := [];
      for i := 0 to |chunks|
        invariant out == Tagged(flowID, chunks)[..i]
      {
        out := out + [StreamChunk(flowID, chunks[i])];
      }
    }

    method Lookup(flowID: string) returns (state: FlowState)
      requires Valid()
      modifies this
      ensures Valid()
      ensures flowID in flows && state == flows[flowID]
      ensures flows == old(flows)[flowID := state]
      ensures state in old(flows.Values) || fresh(state)
      ensures state.View() == FlowOf(old(View()), flowID)
      ensures View() == old(View())[flowID := state.View()]
    {
      if flowID in flows {
        state := flows[flowID];
        assert View() == View()[flowID := state.View()];
        return;
      }
      ghost var before := View();
      state := new FlowState();
      flows := flows[flowID := state];
      assert View() == before[flowID := NEW_FLOW];
    }
  }

  // ---------------------------------------------------------------- arithmetic of Wrap

  lemma WrapAdd(a: int, b: int)
    ensures Wrap(Wrap(a) + b) == Wrap(a + b)
  {
    var k := a / UINT32_RANGE;
    assert a == UINT32_RANGE * k + Wrap(a);
    WrapShift(Wrap(a) + b, k);
  }

  lemma WrapShift(n: int, k: int)
    ensures Wrap(n + UINT32_RANGE * k) == Wrap(n)
  {
  }

  /** Positions closer than the sequence space have different sequence numbers. */
  lemma WrapInjective(a: int, b: int)
    requires Wrap(a) == Wrap(b) && -UINT32_RANGE < a - b < UINT32_RANGE
    ensures a == b
  {
  }

  /** Within half the sequence space, `seqBefore` and `seqDistance` see the true order and distance. */
  lemma SeqOrder(pos: int, next: int)
    requires -0x8000_0000 <= pos - next < 0x8000_0000
    ensures Wrap(pos) == pos % 0x1_0000_0000
    ensures SeqBefore(Wrap(pos), Wrap(next)) <==> pos < next
    ensures pos < next ==> SeqDistance(Wrap(pos), Wrap(next)) == next - pos
    ensures Wrap(pos) == Wrap(next) <==> pos == next
  {
    var i, j := pos / UINT32_RANGE, next / UINT32_RANGE;
    assert pos == UINT32_RANGE * i + Wrap(pos) && next == UINT32_RANGE * j + Wrap(next);
    WrapShift(Wrap(pos) - Wrap(next), i - j);
    WrapShift(Wrap(next) - Wrap(pos), j - i);
  }
}
