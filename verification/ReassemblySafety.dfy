/** Safety of reassembly when segments are arbitrary, possibly overlapping slices of one stream. */
module ReassemblySafety {
  import opened Bytes
  import opened Reassembly
  import opened ReassemblyRefinement

  /** `a` is a slice of the stream whose first byte has position `origin`. */
  predicate SliceOf(stream: Bytes, origin: int, a: Arrival) {
    origin <= a.pos && a.pos + |a.data| <= origin + |stream| &&
    a.data == stream[a.pos - origin..a.pos - origin + |a.data|]
  }

  /** The stream between two positions. */
  function Between(stream: Bytes, origin: int, from: int, to: int): Bytes
    requires origin <= from <= to <= origin + |stream|
  {
    stream[from - origin..to - origin]
  }

  /** Everything held is a non-empty slice from the first captured byte on. */
  ghost predicate Safe(t: Track, stream: Bytes, origin: int) {
    && origin <= t.first <= t.next <= origin + |stream|
    && forall p | p in t.held :: t.first <= p && t.held[p] != [] && SliceOf(stream, origin, Arrival(p, t.held[p]))
  }

  /** A step delivered exactly the stream between the old and the new next position. */
  ghost predicate Delivers(t: Track, step: TrackStep, stream: Bytes, origin: int) {
    && Safe(step.track, stream, origin)
    && step.track.first == t.first
    && origin <= t.next <= step.track.next <= origin + |stream|
    && Concat(step.chunks) == Between(stream, origin, t.next, step.track.next)
  }

  lemma BetweenAppend(stream: Bytes, origin: int, a: int, b: int, c: int)
    requires origin <= a <= b <= c <= origin + |stream|
    ensures Between(stream, origin, a, b) + Between(stream, origin, b, c) == Between(stream, origin, a, c)
  {
  }

  lemma {:induction false} DrainDelivers(t: Track, stream: Bytes, origin: int)
    requires Safe(t, stream, origin)
    ensures Delivers(t, TrackDrain(t), stream, origin)
    decreases |t.held|
  {
    hide TrackDrain, Concat;
    TrackDrainUnfolds(t);
    if t.next in t.held {
      var data := t.held[t.next];
      assert SliceOf(stream, origin, Arrival(t.next, data));
      var u := Track(t.first, t.next + |data|, t.held - {t.next});
      DrainDelivers(u, stream, origin);
      ConcatCons(data, TrackDrain(u).chunks);
      BetweenAppend(stream, origin, t.next, u.next, TrackDrain(u).track.next);
    } else {
      ConcatNone();
    }
  }

  lemma ConcatCons(data: Bytes, chunks: seq<Bytes>)
    ensures Concat([data] + chunks) == data + Concat(chunks)
  {
    assert ([data] + chunks)[1..] == chunks;
  }

  lemma ConcatNone()
    ensures Concat([]) == []
  {
  }

  lemma DeliverDelivers(t: Track, data: Bytes, stream: Bytes, origin: int)
    requires Safe(t, stream, origin) && SliceOf(stream, origin, Arrival(t.next, data))
    ensures Delivers(t, TrackDeliver(t, data), stream, origin)
    ensures TrackDeliver(t, data).track.next >= t.next + |data|
  {
    var u := t.(next := t.next + |data|);
    DrainDelivers(u, stream, origin);
    BetweenAppend(stream, origin, t.next, u.next, TrackDrain(u).track.next);
  }

  /** One slice: what comes out continues the stream, and a slice covering `next` is used to its end. */
  lemma PushDelivers(t: Track, a: Arrival, stream: Bytes, origin: int)
    requires Safe(t, stream, origin) && SliceOf(stream, origin, a)
    ensures Delivers(t, TrackPush(t, a), stream, origin)
    ensures a.pos <= t.next < a.pos + |a.data| ==> TrackPush(t, a).track.next >= a.pos + |a.data|
  {
    hide TrackDeliver;
    if a.pos < t.next && t.next - a.pos < |a.data| {
      var rest := a.data[t.next - a.pos..];
      assert SliceOf(stream, origin, Arrival(t.next, rest));
      DeliverDelivers(t, rest, stream, origin);
    } else if a.pos == t.next && a.data != [] {
      DeliverDelivers(t, a.data, stream, origin);
    }
  }

  predicate AllSlices(stream: Bytes, origin: int, arrivals: seq<Arrival>) {
    forall i | 0 <= i < |arrivals| :: SliceOf(stream, origin, arrivals[i]) && |arrivals[i].data| < UINT32_RANGE
  }

  /** From position `from` on, a run delivered the stream up to where the flow now stands. */
  ghost predicate RunDelivered(out: FlowStep, stream: Bytes, origin: int, first: int, from: int) {
    var end := first + out.flow.bytesRead;
    && origin <= from <= end <= origin + |stream|
    && Concat(out.chunks) == Between(stream, origin, from, end)
    && out.flow.nextSeq == Wrap(end)
  }

  lemma {:induction false} RunDelivers(f: Flow, t: Track, arrivals: seq<Arrival>, stream: Bytes, origin: int)
    requires Refines(f, t) && Safe(t, stream, origin) && origin + |stream| < t.first + UINT32_RANGE
    requires AllSlices(stream, origin, arrivals) && AllNear(f, t.first, arrivals)
    ensures RunDelivered(RunFlow(f, arrivals), stream, origin, t.first, t.next)
    decreases |arrivals|
  {
    hide TrackPush, PushFlow, Refines, Safe, Delivers, RunDelivered;
    if arrivals == [] {
      NothingDelivered(f, t, stream, origin);
    } else {
      var a := arrivals[0];
      var step := PushFlow(f, Wrap(a.pos), a.data);
      var moved := TrackPush(t, a);
      RefinesNext(f, t);
      PushDelivers(t, a, stream, origin);
      SafeInSpan(t, a, stream, origin);
      PushRefines(f, t, a, t.first);
      RunDelivers(step.flow, moved.track, arrivals[1..], stream, origin);
      JoinDelivered(t, moved, RunFlow(step.flow, arrivals[1..]), stream, origin);
    }
  }

  lemma NothingDelivered(f: Flow, t: Track, stream: Bytes, origin: int)
    requires Refines(f, t) && Safe(t, stream, origin)
    ensures RunDelivered(FlowStep(f, []), stream, origin, t.first, t.next)
  {
  }

  /** Within the first 2^32 bytes of a stream, no two positions share a sequence number. */
  lemma SafeInSpan(t: Track, a: Arrival, stream: Bytes, origin: int)
    requires Safe(t, stream, origin) && origin + |stream| < t.first + UINT32_RANGE
    requires SliceOf(stream, origin, a) && Delivers(t, TrackPush(t, a), stream, origin)
    ensures InSpan(t, t.first) && TrackPush(t, a).track.first == t.first
    ensures a.pos < t.first + UINT32_RANGE && TrackPush(t, a).track.next < t.first + UINT32_RANGE
    ensures Safe(TrackPush(t, a).track, stream, origin)
  {
    hide TrackPush;
  }

  lemma JoinDelivered(t: Track, moved: TrackStep, rest: FlowStep, stream: Bytes, origin: int)
    requires Delivers(t, moved, stream, origin)
    requires RunDelivered(rest, stream, origin, t.first, moved.track.next)
    ensures RunDelivered(FlowStep(rest.flow, moved.chunks + rest.chunks), stream, origin, t.first, t.next)
  {
    ConcatAppend(moved.chunks, rest.chunks);
    BetweenAppend(stream, origin, t.next, moved.track.next, t.first + rest.flow.bytesRead);
  }

  /**
   * If all segments are slices of one stream, of which fewer than 2^32 bytes follow the first
   * captured one, and each arrives within 2^31 of the position awaited, then whatever overlaps,
   * duplicates and reordering there are, the flow delivers a gap-free and duplicate-free piece of
   * the stream that starts at the first captured byte.
   */
  lemma ReassemblyIsSafe(arrivals: seq<Arrival>, stream: Bytes, origin: int)
    requires arrivals != [] && arrivals[0].data != []
    requires AllSlices(stream, origin, arrivals)
    requires AllNear(NEW_FLOW, arrivals[0].pos, arrivals)
    requires origin + |stream| < arrivals[0].pos + UINT32_RANGE
    ensures RunDelivered(RunFlow(NEW_FLOW, arrivals), stream, origin, arrivals[0].pos, arrivals[0].pos)
  {
    hide Refines, RunDelivered;
    var a := arrivals[0];
    var start := Start(NEW_FLOW, Wrap(a.pos));
    FirstRefines(a);
    RunDelivers(start, Track(a.pos, a.pos, map[]), arrivals, stream, origin);
  }

  /** A segment that covers the awaited position is never wasted: the flow moves at least to its end. */
  lemma CoveringSegmentIsUsed(f: Flow, t: Track, a: Arrival, stream: Bytes, origin: int)
    requires Refines(f, t) && Safe(t, stream, origin) && origin + |stream| < t.first + UINT32_RANGE
    requires SliceOf(stream, origin, a) && |a.data| < UINT32_RANGE && Near(t.next, a.pos)
    requires a.pos <= t.next < a.pos + |a.data|
    ensures t.first + PushFlow(f, Wrap(a.pos), a.data).flow.bytesRead >= a.pos + |a.data|
  {
    hide TrackPush, PushFlow;
    PushDelivers(t, a, stream, origin);
    PushRefines(f, t, a, t.first);
  }
}
