/** Byte and message counts that every run of the processor conserves. */
module PipelineConservation {
  import opened Bytes
  import opened Fields
  import opened Reassembly
  import opened ReassemblyRefinement
  import opened Pipeline
  import D = Decoder
  import P = DecoderProperties

  // ---------------------------------------------------------------- sums over maps

  ghost function Sum<K>(m: map<K, int>): int
    decreases |m|
  {
    if m == map[] then 0
    else
      var key :| key in m;
      m[key] + Sum(m - {key})
  }

  lemma {:induction false} SumTake<K>(m: map<K, int>, key: K)
    requires key in m
    ensures Sum(m) == m[key] + Sum(m - {key})
    decreases |m|
  {
    var other :| other in m && Sum(m) == m[other] + Sum(m - {other});
    if other != key {
      SumTake(m - {other}, key);
      SumTake(m - {key}, other);
      assert m - {other} - {key} == m - {key} - {other};
    }
  }

  lemma SumPut<K>(m: map<K, int>, key: K, value: int)
    ensures Sum(m[key := value]) == Sum(m) - (if key in m then m[key] else 0) + value
  {
    var n := m[key := value];
    SumTake(n, key);
    if key in m {
      SumTake(m, key);
      assert n - {key} == m - {key};
    } else {
      assert n - {key} == m;
    }
  }

  function Sizes<K>(m: map<K, Bytes>): map<K, int> {
    map key | key in m :: |m[key]|
  }

  ghost function TotalSize<K>(m: map<K, Bytes>): int {
    Sum(Sizes(m))
  }

  lemma SizePut<K>(m: map<K, Bytes>, key: K, value: Bytes)
    ensures TotalSize(m[key := value]) == TotalSize(m) - (if key in m then |m[key]| else 0) + |value|
  {
    assert Sizes(m[key := value]) == Sizes(m)[key := |value|];
    SumPut(Sizes(m), key, |value|);
  }

  lemma SizeTake<K>(m: map<K, Bytes>, key: K)
    requires key in m
    ensures TotalSize(m) == |m[key]| + TotalSize(m - {key})
  {
    assert Sizes(m - {key}) == Sizes(m) - {key};
    SumTake(Sizes(m), key);
  }

  // ---------------------------------------------------------------- one flow

  ghost function Buffered(f: Flow): int {
    TotalSize(f.buffered)
  }

  /** All buffered segments are shorter than 2^32 bytes, so their length is not truncated. */
  predicate Short(f: Flow) {
    forall s | s in f.buffered :: |f.buffered[s]| < UINT32_RANGE
  }

  /** Bytes come out of the buffer and the segment, and `bytesRead` counts the ones that come out. */
  ghost predicate FlowConserves(f: Flow, more: int, step: FlowStep) {
    && |Concat(step.chunks)| + Buffered(step.flow) <= Buffered(f) + more
    && (Short(f) && more < UINT32_RANGE ==>
          Short(step.flow) && step.flow.bytesRead == f.bytesRead + |Concat(step.chunks)|)
  }

  lemma {:induction false} DrainConserves(f: Flow)
    ensures FlowConserves(f, 0, Drain(f))
    decreases |f.buffered|
  {
    hide TotalSize, Length32, Concat, Drain;
    DrainUnfolds(f);
    if f.nextSeq in f.buffered {
      var data := f.buffered[f.nextSeq];
      var rest := Advanced(f.(buffered := f.buffered - {f.nextSeq}), Length32(data));
      SizeTake(f.buffered, f.nextSeq);
      DrainConserves(rest);
      ConcatCons(data, Drain(rest).chunks);
      ShortLength(data);
    } else {
      ConcatNothing();
    }
  }

  lemma ConcatCons(data: Bytes, chunks: seq<Bytes>)
    ensures |Concat([data] + chunks)| == |data| + |Concat(chunks)|
  {
    assert ([data] + chunks)[1..] == chunks;
  }

  lemma ConcatNothing()
    ensures Concat([]) == []
  {
  }

  lemma ShortLength(data: Bytes)
    ensures |data| < UINT32_RANGE ==> Length32(data) == |data|
  {
  }

  lemma DeliverConserves(f: Flow, data: Bytes)
    ensures FlowConserves(f, |data|, Deliver(f, data))
  {
    hide TotalSize, Drain, Concat, Length32;
    DrainConserves(Advanced(f, Length32(data)));
    ConcatCons(data, Drain(Advanced(f, Length32(data))).chunks);
    ShortLength(data);
  }

  lemma PushConserves(f: Flow, seqNo: uint32, data: Bytes)
    ensures FlowConserves(f, |data|, PushFlow(f, seqNo, data))
  {
    hide Deliver, Drain;
    if data != [] {
      var g := Start(f, seqNo);
      SizePut(g.buffered, seqNo, data);
      DeliverConserves(g, data);
      if SeqBefore(seqNo, g.nextSeq) && SeqDistance(seqNo, g.nextSeq) < Length32(data) {
        DeliverConserves(g, data[SeqDistance(seqNo, g.nextSeq)..]);
      }
    }
  }

  // ---------------------------------------------------------------- all flows

  ghost function BufferedIn(flows: map<string, Flow>): map<string, int> {
    map id | id in flows :: Buffered(flows[id])
  }

  function ReadIn(flows: map<string, Flow>): map<string, int> {
    map id | id in flows :: flows[id].bytesRead
  }

  /** All bytes waiting out of order, and all bytes read, over all flows. */
  ghost function AllBuffered(flows: map<string, Flow>): int {
    Sum(BufferedIn(flows))
  }

  ghost function AllRead(flows: map<string, Flow>): int {
    Sum(ReadIn(flows))
  }

  predicate AllShort(flows: map<string, Flow>) {
    forall id | id in flows :: Short(flows[id])
  }

  lemma FlowPutBuffered(flows: map<string, Flow>, id: string, f: Flow)
    ensures AllBuffered(flows[id := f]) == AllBuffered(flows) - Buffered(FlowOf(flows, id)) + Buffered(f)
  {
    assert BufferedIn(flows[id := f]) == BufferedIn(flows)[id := Buffered(f)];
    SumPut(BufferedIn(flows), id, Buffered(f));
    assert Sizes(NEW_FLOW.buffered) == map[];
  }

  lemma FlowPutRead(flows: map<string, Flow>, id: string, f: Flow)
    ensures AllRead(flows[id := f]) == AllRead(flows) - FlowOf(flows, id).bytesRead + f.bytesRead
  {
    assert ReadIn(flows[id := f]) == ReadIn(flows)[id := f.bytesRead];
    SumPut(ReadIn(flows), id, f.bytesRead);
  }

  function ChunkBytes(chunks: seq<StreamChunk>): nat {
    if chunks == [] then 0 else |chunks[0].data| + ChunkBytes(chunks[1..])
  }

  lemma {:induction false} TaggedBytes(id: string, chunks: seq<Bytes>)
    ensures ChunkBytes(Tagged(id, chunks)) == |Concat(chunks)|
    decreases |chunks|
  {
    if chunks != [] {
      assert Tagged(id, chunks)[1..] == Tagged(id, chunks[1..]);
      TaggedBytes(id, chunks[1..]);
    }
  }

  lemma SegmentConserves(flows: map<string, Flow>, segment: Segment)
    ensures var step := PushSegment(flows, segment);
            ChunkBytes(step.chunks) + AllBuffered(step.flows) <= AllBuffered(flows) + |segment.data| &&
            (AllShort(flows) && |segment.data| < UINT32_RANGE ==>
              AllShort(step.flows) && AllRead(step.flows) == AllRead(flows) + ChunkBytes(step.chunks))
  {
    hide PushFlow, Buffered, AllBuffered, AllRead, Tagged;
    if segment.data != [] {
      var f := FlowOf(flows, segment.flowID);
      var step := PushFlow(f, segment.seqNo, segment.data);
      PushConserves(f, segment.seqNo, segment.data);
      FlowPutBuffered(flows, segment.flowID, step.flow);
      FlowPutRead(flows, segment.flowID, step.flow);
      TaggedBytes(segment.flowID, step.chunks);
    }
  }

  // ---------------------------------------------------------------- messages and chunks

  /** Everything but the message counters, the fields and the publishes. */
  predicate SameStream(s: Pipe, t: Pipe) {
    && t.flows == s.flows
    && t.decoders == s.decoders
    && t.summary.streamBytes == s.summary.streamBytes
    && t.summary.payloadBytes == s.summary.payloadBytes
  }

  /** JSON bytes count at most the messages handed over; every publish goes with a message. */
  lemma {:induction false} MessagesCount(cfg: Config, s: Pipe, messages: seq<D.Message>)
    ensures var out := MessagesStep(cfg, s, messages);
            var t := out.pipe;
            SameStream(s, t) &&
            s.summary.jsonBytes <= t.summary.jsonBytes <= s.summary.jsonBytes + P.RawBytes(messages) &&
            (out.ok ==> t.summary.jsonMessages - s.summary.jsonMessages ==
                        t.summary.mqttPublishes - s.summary.mqttPublishes == |messages|)
    decreases |messages|
  {
    hide StatePayload;
    if messages != [] {
      MessagesCount(cfg, MessageStep(cfg, s, messages[0]).pipe, messages[1..]);
    }
  }

  ghost function Residue(s: Pipe): int {
    TotalSize(s.decoders)
  }

  /** JSON bytes and undecoded bytes come out of the stream bytes. */
  ghost predicate Covered(s: Pipe) {
    s.summary.jsonBytes + Residue(s) <= s.summary.streamBytes
  }

  /** What chunks may do to the counters. */
  ghost predicate ChunksCount(s: Pipe, out: Outcome, bytes: int) {
    var t := out.pipe;
    && t.flows == s.flows
    && t.summary.payloadBytes == s.summary.payloadBytes
    && s.summary.streamBytes <= t.summary.streamBytes <= s.summary.streamBytes + bytes
    && (Covered(s) ==> Covered(t))
    && (out.ok ==>
          t.summary.streamBytes == s.summary.streamBytes + bytes &&
          t.summary.jsonMessages - s.summary.jsonMessages == t.summary.mqttPublishes - s.summary.mqttPublishes)
  }

  lemma ChunkCount(cfg: Config, s: Pipe, chunk: StreamChunk)
    ensures ChunksCount(s, ChunkStep(cfg, s, chunk), |chunk.data|)
  {
    hide D.Pushed, MessagesStep, TotalSize;
    var (decoded, messages) := Decode(cfg, s, chunk);
    var buffer := DecoderOf(s.decoders, chunk.flowID);
    MessagesCount(cfg, decoded, messages);
    P.PushConserves(cfg.unmarshal, buffer, chunk.data);
    SizePut(s.decoders, chunk.flowID, decoded.decoders[chunk.flowID]);
  }

  lemma {:induction false} ChunksCounted(cfg: Config, s: Pipe, chunks: seq<StreamChunk>)
    ensures ChunksCount(s, ChunksStep(cfg, s, chunks), ChunkBytes(chunks))
    decreases |chunks|
  {
    hide ChunkStep, Covered;
    if chunks != [] {
      var first := ChunkStep(cfg, s, chunks[0]);
      ChunkCount(cfg, s, chunks[0]);
      if first.ok {
        ChunksCounted(cfg, first.pipe, chunks[1..]);
      }
    }
  }

  // ---------------------------------------------------------------- the invariants

  /** No byte is counted twice on its way from payloads to stream, residues and JSON. */
  ghost predicate Conserved(s: Pipe) {
    && Covered(s)
    && s.summary.streamBytes + AllBuffered(s.flows) <= s.summary.payloadBytes
  }

  /** In the absence of failures the counters agree exactly. */
  ghost predicate Balanced(s: Pipe) {
    && AllShort(s.flows)
    && s.summary.streamBytes == AllRead(s.flows)
    && s.summary.jsonMessages == s.summary.mqttPublishes
  }

  lemma StepConserved(cfg: Config, s: Pipe, p: Packet)
    requires Conserved(s)
    ensures var out := PacketStep(cfg, s, p);
            Conserved(out.pipe) && (Balanced(s) && out.ok && |p.payload| < UINT32_RANGE ==> Balanced(out.pipe))
  {
    hide ChunksStep, PushSegment, AllBuffered, AllRead, AllShort, TotalSize;
    if Outbound(cfg, p) && p.payload != [] {
      var counted := Count(s, p);
      var step := PushSegment(s.flows, SegmentOf(cfg, p));
      SegmentConserves(s.flows, SegmentOf(cfg, p));
      ChunksCounted(cfg, counted.(flows := step.flows), step.chunks);
    }
  }

  lemma NewPipeConserved(earlier: seq<Publication>)
    ensures Conserved(NewPipe(earlier)) && Balanced(NewPipe(earlier))
  {
    assert Sizes(NewPipe(earlier).decoders) == map[];
    assert BufferedIn(NewPipe(earlier).flows) == map[] && ReadIn(NewPipe(earlier).flows) == map[];
  }

  /**
   * Conservation over every run, failures included: JSON bytes plus decoder residues never exceed
   * the stream bytes, which with the out-of-order bytes never exceed the payload bytes. In a run
   * without failures the stream bytes are the bytes read over all flows, and there was one publish
   * for each JSON message.
   */
  lemma {:induction false} RunConserves(cfg: Config, s: Pipe, packets: seq<Packet>)
    requires Conserved(s)
    ensures var out := Run(cfg, s, packets);
            Conserved(out.pipe) &&
            (Balanced(s) && out.ok && (forall i | 0 <= i < |packets| :: |packets[i].payload| < UINT32_RANGE) ==>
              Balanced(out.pipe))
    decreases |packets|
  {
    hide PacketStep, Conserved, Balanced;
    if packets != [] {
      StepConserved(cfg, s, packets[0]);
      if PacketStep(cfg, s, packets[0]).ok {
        RunConserves(cfg, PacketStep(cfg, s, packets[0]).pipe, packets[1..]);
      }
    }
  }

  /** The same, spelled out for a processor that has just been created. */
  lemma EveryRunConserves(cfg: Config, earlier: seq<Publication>, packets: seq<Packet>)
    ensures var t := Run(cfg, NewPipe(earlier), packets).pipe;
            t.summary.jsonBytes + Residue(t) <= t.summary.streamBytes &&
            t.summary.streamBytes + AllBuffered(t.flows) <= t.summary.payloadBytes
    ensures var out := Run(cfg, NewPipe(earlier), packets);
            out.ok && (forall i | 0 <= i < |packets| :: |packets[i].payload| < UINT32_RANGE) ==>
              out.pipe.summary.streamBytes == AllRead(out.pipe.flows) &&
              out.pipe.summary.jsonMessages == out.pipe.summary.mqttPublishes
  {
    hide PacketStep, AllBuffered, AllRead, Residue;
    NewPipeConserved(earlier);
    RunConserves(cfg, NewPipe(earlier), packets);
  }

  // ---------------------------------------------------------------- publishes

  function PublishedBytes(published: seq<Publication>): nat {
    if published == [] then 0
    else PublishedBytes(published[..|published| - 1]) + |published[|published| - 1].payload|
  }

  /**
   * With a publisher, the publish counters are those of the calls made, failed ones included, beyond
   * the `calls` and `bytes` published before (status and discovery messages).
   */
  ghost predicate Accounted(cfg: Config, s: Pipe, calls: int, bytes: int) {
    cfg.hasPublisher ==>
      s.summary.mqttPublishes + calls == |s.published| &&
      s.summary.mqttPayloadBytes + bytes == PublishedBytes(s.published)
  }

  lemma {:induction false} MessagesAccounted(cfg: Config, s: Pipe, messages: seq<D.Message>, calls: int, bytes: int)
    requires Accounted(cfg, s, calls, bytes)
    ensures Accounted(cfg, MessagesStep(cfg, s, messages).pipe, calls, bytes)
    decreases |messages|
  {
    hide StatePayload;
    if messages != [] {
      var first := MessageStep(cfg, s, messages[0]);
      assert Accounted(cfg, first.pipe, calls, bytes) by {
        if |first.pipe.published| > |s.published| {
          assert first.pipe.published[..|s.published|] == s.published;
        }
      }
      MessagesAccounted(cfg, first.pipe, messages[1..], calls, bytes);
    }
  }

  lemma {:induction false} ChunksAccounted(cfg: Config, s: Pipe, chunks: seq<StreamChunk>, calls: int, bytes: int)
    requires Accounted(cfg, s, calls, bytes)
    ensures Accounted(cfg, ChunksStep(cfg, s, chunks).pipe, calls, bytes)
    decreases |chunks|
  {
    hide D.Pushed, MessagesStep, PublishedBytes;
    if chunks != [] {
      var (decoded, messages) := Decode(cfg, s, chunks[0]);
      MessagesAccounted(cfg, decoded, messages, calls, bytes);
      ChunksAccounted(cfg, ChunkStep(cfg, s, chunks[0]).pipe, chunks[1..], calls, bytes);
    }
  }

  /** At every moment of every run, failures included, the publish counters match the calls made. */
  lemma {:induction false} RunAccounted(cfg: Config, s: Pipe, packets: seq<Packet>, calls: int, bytes: int)
    requires Accounted(cfg, s, calls, bytes)
    ensures Accounted(cfg, Run(cfg, s, packets).pipe, calls, bytes)
    decreases |packets|
  {
    hide ChunksStep, PushSegment, PublishedBytes;
    if packets != [] {
      var p := packets[0];
      if Outbound(cfg, p) && p.payload != [] {
        var step := PushSegment(s.flows, SegmentOf(cfg, p));
        ChunksAccounted(cfg, Count(s, p).(flows := step.flows), step.chunks, calls, bytes);
      }
      RunAccounted(cfg, PacketStep(cfg, s, p).pipe, packets[1..], calls, bytes);
    }
  }
}
