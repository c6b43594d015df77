/**
 * What reassembly does not promise, and exactly when: a push can leave received bytes stranded
 * below the awaited position, and can drop bytes that nothing else brings.
 */
module ReassemblyLoss {
  import opened Bytes
  import opened Reassembly
  import opened ReassemblyRefinement
  import opened ReassemblySafety

  // ---------------------------------------------------------------- on 32-bit flows

  /** Some waiting segment holds the byte with sequence number `n`. */
  predicate Holds(f: Flow, n: uint32) {
    exists s | s in f.buffered :: SeqDistance(s, n) < |f.buffered[s]|
  }

  /** The byte awaited next is there, but its segment starts below it and so is never delivered. */
  predicate Stranded(f: Flow) {
    Holds(f, f.nextSeq)
  }

  /** `n` lies inside a waiting segment, not at its start. */
  predicate InsideWaiting(f: Flow, n: uint32) {
    exists s | s in f.buffered :: s != n && SeqDistance(s, n) < |f.buffered[s]|
  }

  /** Where the waiting segments lead from `n` on, each starting exactly where the last one ended. */
  function ChainEnd(buffered: map<uint32, Bytes>, n: uint32): uint32
    decreases |buffered|
  {
    if n in buffered then ChainEnd(buffered - {n}, Wrap(n + |buffered[n]|)) else n
  }

  /** No two waiting segments share a byte. */
  predicate Apart(f: Flow) {
    forall r, s | r in f.buffered && s in f.buffered && r != s :: SeqDistance(r, s) >= |f.buffered[r]|
  }

  /** The byte at position `p` was neither passed over nor is it waiting. */
  predicate Missing(f: Flow, first: int, p: int) {
    p >= first + f.bytesRead && !Holds(f, Wrap(p))
  }

  predicate LosesBytes(after: Flow, first: int, a: Arrival) {
    exists p | a.pos <= p < a.pos + |a.data| :: Missing(after, first, p)
  }

  // ---------------------------------------------------------------- on unbounded positions

  ghost predicate HeldAt(t: Track, p: int) {
    exists q | q in t.held :: q <= p < q + |t.held[q]|
  }

  ghost predicate InsideHeld(t: Track, p: int) {
    exists q | q in t.held :: q < p < q + |t.held[q]|
  }

  ghost predicate Disjoint(t: Track) {
    forall p, q | p in t.held && q in t.held && p < q :: p + |t.held[p]| <= q
  }

  /** A segment that the drain ends strictly inside of is still there afterwards. */
  lemma {:induction false} DrainStrands(t: Track)
    ensures var u := TrackDrain(t).track;
            HeldAt(u, u.next) <==> InsideHeld(t, u.next)
    decreases |t.held|
  {
    hide TrackDrain;
    TrackDrainUnfolds(t);
    DrainMoves(t);
    if t.next in t.held {
      var v := Track(t.first, t.next + |t.held[t.next]|, t.held - {t.next});
      DrainMoves(v);
      DrainStrands(v);
      var end := TrackDrain(v).track.next;
      assert forall q | q in t.held && q < end < q + |t.held[q]| :: q in v.held;
    }
  }

  /** Among disjoint segments, the drain ends inside one only if it began inside one. */
  lemma {:induction false} DrainOfDisjoint(t: Track)
    requires Disjoint(t)
    ensures InsideHeld(t, TrackDrain(t).track.next) <==> InsideHeld(t, t.next)
    decreases |t.held|
  {
    hide TrackDrain;
    TrackDrainUnfolds(t);
    if t.next in t.held {
      var v := Track(t.first, t.next + |t.held[t.next]|, t.held - {t.next});
      DrainMoves(v);
      DrainOfDisjoint(v);
      var end := TrackDrain(v).track.next;
      assert forall q | q in t.held && q < end < q + |t.held[q]| :: q in v.held;
    }
  }

  /** A segment that covers the awaited position drains from its own end. */
  lemma CoveringPush(t: Track, a: Arrival)
    requires a.pos <= t.next < a.pos + |a.data|
    ensures TrackPush(t, a).track == TrackDrain(t.(next := a.pos + |a.data|)).track
  {
    hide TrackDrain;
  }

  /** Nothing received is ever dropped from what was delivered or is waiting. */
  lemma {:induction false} DrainKeeps(t: Track, p: int)
    requires HeldAt(t, p)
    ensures var u := TrackDrain(t).track;
            p < u.next || HeldAt(u, p)
    decreases |t.held|
  {
    hide TrackDrain;
    TrackDrainUnfolds(t);
    if t.next in t.held {
      var v := Track(t.first, t.next + |t.held[t.next]|, t.held - {t.next});
      DrainMoves(v);
      var q :| q in t.held && q <= p < q + |t.held[q]|;
      if q != t.next {
        assert q in v.held;
        DrainKeeps(v, p);
      }
    }
  }

  ghost predicate GoneOnTrack(t: Track, p: int) {
    p >= t.next && !HeldAt(t, p)
  }

  /** Which bytes a push loses: those behind a shorter segment stored at the same position. */
  lemma PushLoses(t: Track, a: Arrival, p: int)
    requires a.pos <= p < a.pos + |a.data|
    ensures GoneOnTrack(TrackPush(t, a).track, p) <==>
              a.pos > t.next && a.pos in t.held && p >= a.pos + |t.held[a.pos]| && !HeldAt(t, p)
  {
    hide TrackDrain;
    if a.pos <= t.next < a.pos + |a.data| {
      CoveringPush(t, a);
      DrainMoves(t.(next := a.pos + |a.data|));
    } else if a.pos > t.next && a.pos !in t.held {
      var held := TrackPush(t, a).track.held;
      assert a.pos in held && held[a.pos] == a.data;
    } else if a.pos > t.next && p < a.pos + |t.held[a.pos]| {
      assert HeldAt(t, p);
    }
  }

  /** What was read or is waiting stays read or waiting. */
  lemma PushKeeps(t: Track, a: Arrival, p: int)
    requires !GoneOnTrack(t, p)
    ensures !GoneOnTrack(TrackPush(t, a).track, p)
  {
    hide TrackDrain;
    if a.pos <= t.next < a.pos + |a.data| {
      var u := t.(next := a.pos + |a.data|);
      CoveringPush(t, a);
      DrainMoves(u);
      if p >= t.next {
        assert HeldAt(u, p);
        DrainKeeps(u, p);
      }
    } else if HeldAt(t, p) {
      var q :| q in t.held && q <= p < q + |t.held[q]|;
      assert q in TrackPush(t, a).track.held;
    }
  }

  // ---------------------------------------------------------------- between the two

  /** Flow and track agree, on a stream within the sequence space of the first captured byte. */
  ghost predicate Tracked(f: Flow, t: Track, stream: Bytes, origin: int) {
    Refines(f, t) && Safe(t, stream, origin) && origin + |stream| < t.first + UINT32_RANGE
  }

  lemma DistanceOf(q: int, p: int)
    requires -UINT32_RANGE < q - p < UINT32_RANGE
    ensures SeqDistance(Wrap(q), Wrap(p)) == if q <= p then p - q else p - q + UINT32_RANGE
    ensures Wrap(q) == Wrap(p) <==> q == p
  {
    var i, j := q / UINT32_RANGE, p / UINT32_RANGE;
    assert q == UINT32_RANGE * i + Wrap(q) && p == UINT32_RANGE * j + Wrap(p);
    WrapShift(Wrap(p) - Wrap(q), j - i);
    if q > p {
      WrapShift(p - q, 1);
    }
  }

  /** A waiting segment, seen on both sides. */
  lemma HeldReach(f: Flow, t: Track, q: int, p: int, stream: Bytes, origin: int)
    requires Tracked(f, t, stream, origin) && q in t.held && t.first <= p <= origin + |stream|
    ensures Wrap(q) in f.buffered && f.buffered[Wrap(q)] == t.held[q]
    ensures SeqDistance(Wrap(q), Wrap(p)) < |t.held[q]| <==> q <= p < q + |t.held[q]|
    ensures Wrap(q) == Wrap(p) <==> q == p
  {
    hide Wrap, SeqDistance;
    assert SliceOf(stream, origin, Arrival(q, t.held[q]));
    DistanceOf(q, p);
  }

  lemma HoldsOnTrack(f: Flow, t: Track, p: int, stream: Bytes, origin: int)
    requires Tracked(f, t, stream, origin) && t.first <= p <= origin + |stream|
    ensures Holds(f, Wrap(p)) <==> HeldAt(t, p)
    ensures InsideWaiting(f, Wrap(p)) <==> InsideHeld(t, p)
  {
    hide Wrap, SeqDistance, Safe;
    forall q | q in t.held
      ensures Wrap(q) in f.buffered && f.buffered[Wrap(q)] == t.held[q]
      ensures SeqDistance(Wrap(q), Wrap(p)) < |t.held[q]| <==> q <= p < q + |t.held[q]|
      ensures Wrap(q) == Wrap(p) <==> q == p
    {
      HeldReach(f, t, q, p, stream, origin);
    }
  }

  lemma ApartOnTrack(f: Flow, t: Track, stream: Bytes, origin: int)
    requires Tracked(f, t, stream, origin)
    ensures Apart(f) <==> Disjoint(t)
  {
    hide Wrap, SeqDistance;
    forall p, q | p in t.held && q in t.held
      ensures Wrap(p) in f.buffered && f.buffered[Wrap(p)] == t.held[p]
      ensures Wrap(p) == Wrap(q) <==> p == q
      ensures SeqDistance(Wrap(p), Wrap(q)) < |t.held[p]| <==> p <= q < p + |t.held[p]|
    {
      assert SliceOf(stream, origin, Arrival(q, t.held[q]));
      HeldReach(f, t, p, q, stream, origin);
    }
  }

  /** The chain of waiting segments is what a drain follows. */
  lemma {:induction false} DrainFollowsChain(f: Flow)
    ensures Drain(f).flow.nextSeq == ChainEnd(f.buffered, f.nextSeq)
    decreases |f.buffered|
  {
    hide Wrap;
    if f.nextSeq in f.buffered {
      var data := f.buffered[f.nextSeq];
      assert Wrap(f.nextSeq + Wrap(|data|)) == Wrap(f.nextSeq + |data|) by {
        WrapAdd(|data|, f.nextSeq);
      }
      DrainFollowsChain(Advanced(f.(buffered := f.buffered - {f.nextSeq}), Length32(data)));
    }
  }

  /** After one more segment of the stream, flow and track still agree. */
  lemma PushTracked(f: Flow, t: Track, a: Arrival, stream: Bytes, origin: int)
    requires Tracked(f, t, stream, origin)
    requires SliceOf(stream, origin, a) && |a.data| < UINT32_RANGE && Near(t.next, a.pos)
    ensures Tracked(PushFlow(f, Wrap(a.pos), a.data).flow, TrackPush(t, a).track, stream, origin)
    ensures TrackPush(t, a).track.first == t.first
  {
    hide TrackPush, PushFlow, Refines, Delivers;
    PushDelivers(t, a, stream, origin);
    SafeInSpan(t, a, stream, origin);
    PushRefines(f, t, a, t.first);
  }

  /** Any run over slices of one stream ends in a flow that some track describes. */
  lemma {:induction false} RunTracked(f: Flow, t: Track, arrivals: seq<Arrival>, stream: Bytes, origin: int)
    requires Tracked(f, t, stream, origin)
    requires AllSlices(stream, origin, arrivals) && AllNear(f, t.first, arrivals)
    ensures Tracked(RunFlow(f, arrivals).flow, RunTrack(t, arrivals).track, stream, origin)
    ensures RunTrack(t, arrivals).track.first == t.first
    decreases |arrivals|
  {
    hide TrackPush, PushFlow, Tracked;
    if arrivals != [] {
      var a := arrivals[0];
      TrackedNext(f, t, stream, origin);
      PushTracked(f, t, a, stream, origin);
      RunTracked(PushFlow(f, Wrap(a.pos), a.data).flow, TrackPush(t, a).track, arrivals[1..], stream, origin);
    }
  }

  lemma TrackedNext(f: Flow, t: Track, stream: Bytes, origin: int)
    requires Tracked(f, t, stream, origin)
    ensures f.started && f.nextSeq == Wrap(t.next) && t.next == t.first + f.bytesRead
    ensures t.first <= t.next <= origin + |stream|
  {
  }

  // ---------------------------------------------------------------- the exact conditions

  /** Slices of one stream, each near the position awaited, within the sequence space of the first. */
  predicate ReceivedFrom(arrivals: seq<Arrival>, stream: Bytes, origin: int) {
    && arrivals != [] && arrivals[0].data != []
    && AllSlices(stream, origin, arrivals)
    && AllNear(NEW_FLOW, arrivals[0].pos, arrivals)
    && origin + |stream| < arrivals[0].pos + UINT32_RANGE
  }

  /** A further slice of the stream, near the position a flow that began at `first` awaits. */
  predicate ReceivedNext(f: Flow, first: int, a: Arrival, stream: Bytes, origin: int) {
    SliceOf(stream, origin, a) && |a.data| < UINT32_RANGE && Near(first + f.bytesRead, a.pos)
  }

  lemma ReceivedIsTracked(arrivals: seq<Arrival>, stream: Bytes, origin: int) returns (t: Track)
    requires ReceivedFrom(arrivals, stream, origin)
    ensures Tracked(RunFlow(NEW_FLOW, arrivals).flow, t, stream, origin) && t.first == arrivals[0].pos
  {
    var a := arrivals[0];
    var begin := Track(a.pos, a.pos, map[]);
    FirstRefines(a);
    RunTracked(Start(NEW_FLOW, Wrap(a.pos)), begin, arrivals, stream, origin);
    t := RunTrack(begin, arrivals).track;
  }

  lemma CoveringStrands(f: Flow, t: Track, a: Arrival, stream: Bytes, origin: int)
    requires Tracked(f, t, stream, origin) && ReceivedNext(f, t.first, a, stream, origin)
    requires a.pos <= t.next < a.pos + |a.data|
    ensures var end := Wrap(a.pos + |a.data|);
            var stranded := Stranded(PushFlow(f, Wrap(a.pos), a.data).flow);
            (stranded <==> InsideWaiting(f, ChainEnd(f.buffered, end))) &&
            (Apart(f) ==> (stranded <==> InsideWaiting(f, end)))
  {
    hide Wrap, PushFlow, TrackPush, TrackDrain, Tracked, Refines, Safe, Holds, InsideWaiting, HeldAt, InsideHeld, Drain;
    var end := a.pos + |a.data|;
    var u := t.(next := end);
    var after, moved := PushFlow(f, Wrap(a.pos), a.data).flow, TrackPush(t, a).track;
    TrackedNext(f, t, stream, origin);
    PushTracked(f, t, a, stream, origin);
    CoveringPush(t, a);
    DrainStrands(u);
    TrackedNext(after, moved, stream, origin);
    HoldsOnTrack(after, moved, moved.next, stream, origin);
    HoldsOnTrack(f, t, moved.next, stream, origin);
    CoveringPushFollowsChain(f, t.first, a);
    assert InsideHeld(u, moved.next) <==> InsideHeld(t, moved.next) by { InsideHeldOf(t, end, moved.next); }
    if Apart(f) {
      ApartOnTrack(f, t, stream, origin);
      DrainOfDisjoint(u);
      InsideHeldOf(t, end, end);
      HoldsOnTrack(f, t, end, stream, origin);
    }
  }

  lemma InsideHeldOf(t: Track, next: int, p: int)
    ensures InsideHeld(t.(next := next), p) <==> InsideHeld(t, p)
  {
  }

  lemma ShortLength(data: Bytes)
    requires |data| < UINT32_RANGE
    ensures Length32(data) == |data|
  {
  }

  lemma CoveringPushFollowsChain(f: Flow, first: int, a: Arrival)
    requires f.started && f.nextSeq == Wrap(first + f.bytesRead)
    requires |a.data| < UINT32_RANGE && Near(first + f.bytesRead, a.pos)
    requires a.pos <= first + f.bytesRead < a.pos + |a.data|
    ensures PushFlow(f, Wrap(a.pos), a.data).flow.nextSeq == ChainEnd(f.buffered, Wrap(a.pos + |a.data|))
  {
    hide Drain, Wrap, SeqBefore, SeqDistance, ChainEnd;
    var next := first + f.bytesRead;
    var rest := a.data[next - a.pos..];
    SeqOrder(a.pos, next);
    ShortLength(a.data);
    ShortLength(rest);
    WrapAdd(next, |rest|);
    DrainFollowsChain(Advanced(f, |rest|));
  }

  /**
   * When received bytes are stranded, decided before the push: a segment that covers the awaited
   * position leaves the flow waiting for a byte it already has if and only if the waiting segments
   * that continue it lead to a place strictly inside another waiting segment; when no two of these
   * overlap, if and only if the new segment's own end lies strictly inside one. Any other segment
   * changes nothing about it.
   */
  lemma StrandedExactly(arrivals: seq<Arrival>, a: Arrival, stream: Bytes, origin: int)
    requires ReceivedFrom(arrivals, stream, origin)
    requires ReceivedNext(RunFlow(NEW_FLOW, arrivals).flow, arrivals[0].pos, a, stream, origin)
    ensures var f := RunFlow(NEW_FLOW, arrivals).flow;
            var next, end := arrivals[0].pos + f.bytesRead, a.pos + |a.data|;
            var stranded := Stranded(PushFlow(f, Wrap(a.pos), a.data).flow);
            if a.pos <= next < end then
              (stranded <==> InsideWaiting(f, ChainEnd(f.buffered, Wrap(end)))) &&
              (Apart(f) ==> (stranded <==> InsideWaiting(f, Wrap(end))))
            else
              stranded <==> Stranded(f)
  {
    hide Tracked, RunFlow, AllNear, Apart, InsideWaiting, Stranded, ChainEnd, TrackPush, PushFlow;
    var f := RunFlow(NEW_FLOW, arrivals).flow;
    var t := ReceivedIsTracked(arrivals, stream, origin);
    TrackedNext(f, t, stream, origin);
    if a.pos <= t.next < a.pos + |a.data| {
      CoveringStrands(f, t, a, stream, origin);
    } else {
      OtherPushStrandsNothing(f, t, a, stream, origin);
    }
  }

  lemma OtherPushStrandsNothing(f: Flow, t: Track, a: Arrival, stream: Bytes, origin: int)
    requires Tracked(f, t, stream, origin) && ReceivedNext(f, t.first, a, stream, origin)
    requires !(a.pos <= t.next < a.pos + |a.data|)
    ensures Stranded(PushFlow(f, Wrap(a.pos), a.data).flow) <==> Stranded(f)
  {
    hide Wrap, PushFlow, Tracked, Holds, TrackDeliver;
    var after, moved := PushFlow(f, Wrap(a.pos), a.data).flow, TrackPush(t, a).track;
    TrackedNext(f, t, stream, origin);
    PushTracked(f, t, a, stream, origin);
    TrackedNext(after, moved, stream, origin);
    HoldsOnTrack(f, t, t.next, stream, origin);
    HoldsOnTrack(after, moved, moved.next, stream, origin);
    assert moved.next == t.next;
    assert forall q | q in t.held :: q in moved.held && moved.held[q] == t.held[q];
  }

  lemma MissingOnTrack(f: Flow, t: Track, p: int, stream: Bytes, origin: int)
    requires Tracked(f, t, stream, origin) && p <= origin + |stream|
    ensures Missing(f, t.first, p) <==> GoneOnTrack(t, p)
  {
    hide Wrap, Tracked, Holds, HeldAt;
    TrackedNext(f, t, stream, origin);
    if p >= t.next {
      HoldsOnTrack(f, t, p, stream, origin);
    }
  }

  /** What was read or is waiting before a push is read or waiting after it. */
  lemma NothingForgotten(arrivals: seq<Arrival>, a: Arrival, p: int, stream: Bytes, origin: int)
    requires ReceivedFrom(arrivals, stream, origin)
    requires ReceivedNext(RunFlow(NEW_FLOW, arrivals).flow, arrivals[0].pos, a, stream, origin)
    requires p < origin + |stream|
    requires !Missing(RunFlow(NEW_FLOW, arrivals).flow, arrivals[0].pos, p)
    ensures !Missing(PushFlow(RunFlow(NEW_FLOW, arrivals).flow, Wrap(a.pos), a.data).flow, arrivals[0].pos, p)
  {
    hide Tracked, RunFlow, AllNear, Missing, GoneOnTrack, TrackPush, PushFlow;
    var f := RunFlow(NEW_FLOW, arrivals).flow;
    var t := ReceivedIsTracked(arrivals, stream, origin);
    TrackedNext(f, t, stream, origin);
    PushTracked(f, t, a, stream, origin);
    MissingOnTrack(f, t, p, stream, origin);
    MissingOnTrack(PushFlow(f, Wrap(a.pos), a.data).flow, TrackPush(t, a).track, p, stream, origin);
    PushKeeps(t, a, p);
  }

  /** A shorter segment is stored at the early segment's own place, and a byte behind it is nowhere. */
  predicate StoredShort(f: Flow, first: int, a: Arrival) {
    a.pos > first + f.bytesRead && Wrap(a.pos) in f.buffered &&
    exists p | a.pos + |f.buffered[Wrap(a.pos)]| <= p < a.pos + |a.data| :: !Holds(f, Wrap(p))
  }

  /** No waiting segment starts behind `a.pos` and before the end of `a`. */
  predicate NoneStartsWithin(f: Flow, a: Arrival) {
    forall s | s in f.buffered && s != Wrap(a.pos) :: SeqDistance(Wrap(a.pos), s) >= |a.data|
  }

  /**
   * When bytes of a segment are dropped, decided before the push: if and only if the segment is
   * early, a shorter one is already stored under its sequence number, and not all the bytes behind
   * that one are waiting in others. Among segments that do not overlap and none of which starts
   * within the new one, that is just when the new one is longer than the stored one.
   */
  lemma LostExactly(arrivals: seq<Arrival>, a: Arrival, stream: Bytes, origin: int)
    requires ReceivedFrom(arrivals, stream, origin)
    requires ReceivedNext(RunFlow(NEW_FLOW, arrivals).flow, arrivals[0].pos, a, stream, origin)
    ensures var f, first := RunFlow(NEW_FLOW, arrivals).flow, arrivals[0].pos;
            var lost := LosesBytes(PushFlow(f, Wrap(a.pos), a.data).flow, first, a);
            (lost <==> StoredShort(f, first, a)) &&
            (Apart(f) && NoneStartsWithin(f, a) ==>
               (lost <==> a.pos > first + f.bytesRead && Wrap(a.pos) in f.buffered &&
                          |a.data| > |f.buffered[Wrap(a.pos)]|))
  {
    hide Tracked, RunFlow, AllNear, LosesBytes, StoredShort, Apart, NoneStartsWithin, PushFlow;
    var t := ReceivedIsTracked(arrivals, stream, origin);
    PushLosesExactly(RunFlow(NEW_FLOW, arrivals).flow, t, a, stream, origin);
  }

  lemma PushLosesExactly(f: Flow, t: Track, a: Arrival, stream: Bytes, origin: int)
    requires Tracked(f, t, stream, origin) && ReceivedNext(f, t.first, a, stream, origin)
    ensures var lost := LosesBytes(PushFlow(f, Wrap(a.pos), a.data).flow, t.first, a);
            (lost <==> StoredShort(f, t.first, a)) &&
            (Apart(f) && NoneStartsWithin(f, a) ==>
               (lost <==> a.pos > t.first + f.bytesRead && Wrap(a.pos) in f.buffered &&
                          |a.data| > |f.buffered[Wrap(a.pos)]|))
  {
    hide Tracked, Missing, GoneOnTrack, TrackPush, PushFlow, Wrap, Holds, HeldAt, Apart, SeqDistance;
    var after, moved := PushFlow(f, Wrap(a.pos), a.data).flow, TrackPush(t, a).track;
    TrackedNext(f, t, stream, origin);
    PushTracked(f, t, a, stream, origin);
    if a.pos > t.next {
      StoredOnTrack(f, t, a, stream, origin);
    }
    forall p | a.pos <= p < a.pos + |a.data|
      ensures Missing(after, t.first, p) <==>
                a.pos > t.next && a.pos in t.held && p >= a.pos + |t.held[a.pos]| && !Holds(f, Wrap(p))
    {
      MissingOnTrack(after, moved, p, stream, origin);
      PushLoses(t, a, p);
      if a.pos > t.next {
        HoldsOnTrack(f, t, p, stream, origin);
      }
    }
    if a.pos > t.next && a.pos in t.held && |a.data| > |t.held[a.pos]| && Apart(f) && NoneStartsWithin(f, a) {
      var p := a.pos + |t.held[a.pos]|;
      NothingBehind(f, t, a, stream, origin);
      assert Missing(after, t.first, p);
    }
  }

  lemma StoredOnTrack(f: Flow, t: Track, a: Arrival, stream: Bytes, origin: int)
    requires Tracked(f, t, stream, origin) && SliceOf(stream, origin, a) && t.next < a.pos
    ensures Wrap(a.pos) in f.buffered <==> a.pos in t.held
    ensures a.pos in t.held ==> f.buffered[Wrap(a.pos)] == t.held[a.pos] && |t.held[a.pos]| > 0
  {
    hide Wrap;
    assert forall q | q in t.held :: SliceOf(stream, origin, Arrival(q, t.held[q]));
    HeldLookup(f, t, a.pos, t.first);
  }

  /** With nothing overlapping or starting within `a`, the byte after the stored segment is nowhere. */
  lemma NothingBehind(f: Flow, t: Track, a: Arrival, stream: Bytes, origin: int)
    requires Tracked(f, t, stream, origin) && SliceOf(stream, origin, a) && t.next < a.pos
    requires Apart(f) && NoneStartsWithin(f, a) && a.pos in t.held && |t.held[a.pos]| < |a.data|
    ensures !Holds(f, Wrap(a.pos + |t.held[a.pos]|))
  {
    hide Wrap, SeqDistance, Holds, Apart;
    var p := a.pos + |t.held[a.pos]|;
    StoredOnTrack(f, t, a, stream, origin);
    ApartOnTrack(f, t, stream, origin);
    HoldsOnTrack(f, t, p, stream, origin);
    if q :| q in t.held && q <= p < q + |t.held[q]| {
      assert SliceOf(stream, origin, Arrival(q, t.held[q]));
      HeldReach(f, t, q, p, stream, origin);
      DistanceOf(a.pos, q);
      assert false;
    }
  }

  // ---------------------------------------------------------------- what is never to blame

  /** The position a flow awaits after the first `i` arrivals. */
  function Awaited(f: Flow, first: int, arrivals: seq<Arrival>, i: nat): int
    requires i <= |arrivals|
  {
    first + RunFlow(f, arrivals[..i]).flow.bytesRead
  }

  lemma {:induction false} DrainReadsOn(f: Flow)
    ensures Drain(f).flow.bytesRead >= f.bytesRead
    decreases |f.buffered|
  {
    if f.nextSeq in f.buffered {
      DrainReadsOn(Advanced(f.(buffered := f.buffered - {f.nextSeq}), Length32(f.buffered[f.nextSeq])));
    }
  }

  lemma DeliverReadsOn(f: Flow, data: Bytes)
    requires |data| < UINT32_RANGE
    ensures Length32(data) == |data|
    ensures Deliver(f, data).flow.bytesRead >= f.bytesRead + |data|
  {
    DrainReadsOn(Advanced(f, Length32(data)));
  }

  /** A segment that does not start beyond the awaited position is read to its end. */
  lemma PushReadsOn(f: Flow, first: int, a: Arrival)
    requires FlowInvariant(f, Wrap(first)) && Near(first + f.bytesRead, a.pos) && |a.data| < UINT32_RANGE
    ensures var after := PushFlow(f, Wrap(a.pos), a.data).flow;
            after.bytesRead >= f.bytesRead &&
            (a.pos <= first + f.bytesRead ==> first + after.bytesRead >= a.pos + |a.data|)
  {
    hide Deliver, Wrap, Length32, SeqBefore, SeqDistance;
    var next := first + f.bytesRead;
    assert f.nextSeq == Wrap(next) by {
      WrapAdd(first, f.bytesRead);
    }
    SeqOrder(a.pos, next);
    DeliverReadsOn(f, a.data);
    if a.pos < next && next - a.pos < |a.data| {
      DeliverReadsOn(f, a.data[next - a.pos..]);
    }
  }

  lemma {:induction false} RunReadsOn(f: Flow, first: int, arrivals: seq<Arrival>, i: nat)
    requires FlowInvariant(f, Wrap(first)) && AllNear(f, first, arrivals)
    requires forall k | 0 <= k < |arrivals| :: |arrivals[k].data| < UINT32_RANGE
    ensures RunFlow(f, arrivals).flow.bytesRead >= f.bytesRead
    ensures i < |arrivals| && arrivals[i].pos <= Awaited(f, first, arrivals, i) ==>
              first + RunFlow(f, arrivals).flow.bytesRead >= arrivals[i].pos + |arrivals[i].data|
    decreases |arrivals|
  {
    hide PushFlow, FlowInvariant;
    if arrivals != [] {
      var a := arrivals[0];
      var after := PushFlow(f, Wrap(a.pos), a.data).flow;
      PushReadsOn(f, first, a);
      PushKeepsInvariant(f, Wrap(first), Wrap(a.pos), a.data);
      RunReadsOn(after, first, arrivals[1..], if i == 0 then 0 else i - 1);
      if 0 < i < |arrivals| {
        assert arrivals[..i][1..] == arrivals[1..][..i - 1];
        assert Awaited(f, first, arrivals, i) == Awaited(after, first, arrivals[1..], i - 1);
      }
    }
  }

  /**
   * Segments on time or late are never stranded, whatever else arrives and however segments overlap:
   * one that does not start beyond the position awaited when it arrives is read to its end.
   */
  lemma TimelySegmentsAreRead(arrivals: seq<Arrival>, i: nat)
    requires arrivals != [] && arrivals[0].data != [] && i < |arrivals|
    requires forall k | 0 <= k < |arrivals| :: |arrivals[k].data| < UINT32_RANGE
    requires AllNear(NEW_FLOW, arrivals[0].pos, arrivals)
    requires arrivals[i].pos <= Awaited(NEW_FLOW, arrivals[0].pos, arrivals, i)
    ensures arrivals[0].pos + RunFlow(NEW_FLOW, arrivals).flow.bytesRead >= arrivals[i].pos + |arrivals[i].data|
  {
    hide PushFlow, FlowInvariant;
    var first := arrivals[0].pos;
    var start := Start(NEW_FLOW, Wrap(first));
    FirstRefines(arrivals[0]);
    StartInvariant(Wrap(first));
    if i > 0 {
      assert arrivals[..i][0] == arrivals[0];
    }
    assert Awaited(NEW_FLOW, first, arrivals, i) == Awaited(start, first, arrivals, i);
    RunReadsOn(start, first, arrivals, i);
  }

  lemma StartInvariant(seqNo: uint32)
    ensures FlowInvariant(Start(NEW_FLOW, seqNo), seqNo)
  {
  }

  // ---------------------------------------------------------------- one run of each kind

  lemma RunOfThree(a: Arrival, b: Arrival, c: Arrival)
    ensures var one := PushFlow(NEW_FLOW, Wrap(a.pos), a.data);
            var two := PushFlow(one.flow, Wrap(b.pos), b.data);
            var three := PushFlow(two.flow, Wrap(c.pos), c.data);
            RunFlow(NEW_FLOW, [a, b, c]) == FlowStep(three.flow, one.chunks + two.chunks + three.chunks)
  {
    hide PushFlow;
    var one := PushFlow(NEW_FLOW, Wrap(a.pos), a.data);
    var two := PushFlow(one.flow, Wrap(b.pos), b.data);
    assert [a, b, c][1..] == [b, c] && [b, c][1..] == [c] && [c][1..] == [];
    assert RunFlow(two.flow, [c]).chunks == PushFlow(two.flow, Wrap(c.pos), c.data).chunks;
    assert RunFlow(one.flow, [b, c]).chunks == two.chunks + RunFlow(two.flow, [c]).chunks;
  }

  /**
   * Bytes 98 to 109 of a stream: the segment 105..109 waits when 100..106 arrives, the flow moves to
   * 107, inside the waiting segment, and bytes 107 to 109 stay behind.
   */
  lemma OverlapStrandsBytes(body: Bytes)
    requires |body| == 12
    ensures var run := RunFlow(NEW_FLOW, [Arrival(98, body[..2]), Arrival(105, body[7..]), Arrival(100, body[2..9])]);
            run == FlowStep(Flow(107, true, map[105 := body[7..]], 9), [body[..2], body[2..9]]) &&
            Stranded(run.flow)
  {
    RunOfThree(Arrival(98, body[..2]), Arrival(105, body[7..]), Arrival(100, body[2..9]));
    var run := RunFlow(NEW_FLOW, [Arrival(98, body[..2]), Arrival(105, body[7..]), Arrival(100, body[2..9])]);
    assert run.chunks == [body[..2], body[2..9]];
    assert 105 in run.flow.buffered && SeqDistance(105, 107) == 2;
  }

  /** The segment 105..106 waits when 105..109 arrives, and bytes 107 to 109 are dropped. */
  lemma ShorterSegmentWins(body: Bytes)
    requires |body| == 12
    ensures var arrivals := [Arrival(98, body[..2]), Arrival(105, body[7..9]), Arrival(105, body[7..])];
            var run := RunFlow(NEW_FLOW, arrivals);
            run == FlowStep(Flow(100, true, map[105 := body[7..9]], 2), [body[..2]]) &&
            forall p | 107 <= p < 110 :: Missing(run.flow, 98, p)
  {
    hide RunFlow, Missing;
    RunOfThree(Arrival(98, body[..2]), Arrival(105, body[7..9]), Arrival(105, body[7..]));
    BehindIsMissing(body[7..9]);
  }

  lemma BehindIsMissing(short: Bytes)
    requires |short| == 2
    ensures forall p | 107 <= p < 110 :: Missing(Flow(100, true, map[105 := short], 2), 98, p)
  {
    forall p | 107 <= p < 110
      ensures !Holds(Flow(100, true, map[105 := short], 2), Wrap(p))
    {
      DistanceOf(105, p);
    }
  }
}
