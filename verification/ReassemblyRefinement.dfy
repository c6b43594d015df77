/**
 * The 32-bit reassembler refines a reassembler over unbounded stream positions.
 *
 * A position is an unbounded sequence number: the byte at position `p` travels with sequence
 * number `Wrap(p)`. `Track` runs the algorithm of the source on positions; `Refines` relates a
 * flow to it across any number of wraparounds.
 */
module ReassemblyRefinement {
  import opened Bytes
  import opened Reassembly

  datatype Arrival = Arrival(pos: int, data: Bytes)

  /** Position of the first captured byte, position awaited next, and what waits out of order. */
  datatype Track = Track(first: int, next: int, held: map<int, Bytes>)

  datatype TrackStep = TrackStep(track: Track, chunks: seq<Bytes>)

  function TrackDrain(t: Track): TrackStep
    decreases |t.held|
  {
    if t.next !in t.held then TrackStep(t, [])
    else
      var data := t.held[t.next];
      var rest := TrackDrain(Track(t.first, t.next + |data|, t.held - {t.next}));
      TrackStep(rest.track, [data] + rest.chunks)
  }

  function TrackDeliver(t: Track, data: Bytes): TrackStep {
    var rest := TrackDrain(t.(next := t.next + |data|));
    TrackStep(rest.track, [data] + rest.chunks)
  }

  function TrackPush(t: Track, a: Arrival): TrackStep {
    if a.data == [] then TrackStep(t, [])
    else if a.pos < t.next then
      if t.next - a.pos >= |a.data| then TrackStep(t, [])
      else TrackDeliver(t, a.data[t.next - a.pos..])
    else if a.pos != t.next then
      TrackStep(if a.pos in t.held then t else t.(held := t.held[a.pos := a.data]), [])
    else TrackDeliver(t, a.data)
  }

  // ---------------------------------------------------------------- refinement

  ghost predicate Refines(f: Flow, t: Track) {
    && f.started
    && f.nextSeq == Wrap(t.next)
    && f.bytesRead == t.next - t.first
    && (forall p | p in t.held :: Wrap(p) in f.buffered && f.buffered[Wrap(p)] == t.held[p])
    && (forall s | s in f.buffered :: exists p | p in t.held :: Wrap(p) == s)
  }

  /** All positions in play lie within one span of the sequence space, starting at `lo`. */
  ghost predicate InSpan(t: Track, lo: int) {
    lo <= t.next < lo + UINT32_RANGE && forall p | p in t.held :: lo <= p < lo + UINT32_RANGE
  }

  predicate Near(next: int, pos: int) {
    -INT32_RANGE <= pos - next < INT32_RANGE
  }

  lemma HeldLookup(f: Flow, t: Track, p: int, lo: int)
    requires Refines(f, t) && InSpan(t, lo) && lo <= p < lo + UINT32_RANGE
    ensures Wrap(p) in f.buffered <==> p in t.held
    ensures p in t.held ==> f.buffered[Wrap(p)] == t.held[p]
  {
    if Wrap(p) in f.buffered {
      var q :| q in t.held && Wrap(q) == Wrap(p);
      WrapInjective(p, q);
    }
  }

  lemma {:induction false} DrainMoves(t: Track)
    ensures var u := TrackDrain(t).track;
            u.first == t.first && u.next >= t.next && u.next !in u.held &&
            forall p | p in u.held :: p in t.held && u.held[p] == t.held[p]
    decreases |t.held|
  {
    if t.next in t.held {
      DrainMoves(Track(t.first, t.next + |t.held[t.next]|, t.held - {t.next}));
    }
  }

  /** Advancing by the length of a segment advances the position by as much. */
  lemma AdvanceRefines(f: Flow, t: Track, data: Bytes)
    requires Refines(f, t) && |data| < UINT32_RANGE
    ensures var g := Advanced(f, Length32(data));
            g.started && g.buffered == f.buffered &&
            g.nextSeq == Wrap(t.next + |data|) && g.bytesRead == t.next + |data| - t.first
  {
    RefinesNext(f, t);
    WrapAdd(t.next, |data|);
  }

  /** Taking the segment at the next position keeps flow and track together. */
  lemma TakeRefines(f: Flow, t: Track, lo: int)
    requires Refines(f, t) && InSpan(t, lo) && t.next in t.held && |t.held[t.next]| < UINT32_RANGE
    ensures f.nextSeq in f.buffered && f.buffered[f.nextSeq] == t.held[t.next]
    ensures var data := t.held[t.next];
            Refines(Advanced(f.(buffered := f.buffered - {f.nextSeq}), Length32(data)),
                    Track(t.first, t.next + |data|, t.held - {t.next}))
  {
    hide Wrap, Length32, Advanced;
    var data := t.held[t.next];
    HeldLookup(f, t, t.next, lo);
    AdvanceRefines(f, t, data);
    var f' := Advanced(f.(buffered := f.buffered - {f.nextSeq}), Length32(data));
    AdvanceKeepsBuffer(f, f.buffered - {f.nextSeq}, Length32(data));
    var held' := t.held - {t.next};
    forall p | p in held'
      ensures Wrap(p) in f'.buffered && f'.buffered[Wrap(p)] == held'[p]
    {
      if Wrap(p) == f.nextSeq {
        WrapInjective(p, t.next);
      }
    }
    forall s | s in f'.buffered
      ensures exists p | p in held' :: Wrap(p) == s
    {
      var p :| p in t.held && Wrap(p) == s;
      assert p in held';
    }
  }

  lemma AdvanceKeepsBuffer(f: Flow, buffered: map<uint32, Bytes>, length: uint32)
    ensures Advanced(f.(buffered := buffered), length) == Advanced(f, length).(buffered := buffered)
  {
  }

  lemma TrackNextGrows(t: Track)
    ensures TrackDrain(t).track.next >= t.next
  {
    DrainMoves(t);
  }

  lemma DrainUnfolds(f: Flow)
    ensures f.nextSeq !in f.buffered ==> Drain(f) == FlowStep(f, [])
    ensures f.nextSeq in f.buffered ==>
              var data := f.buffered[f.nextSeq];
              var rest := Drain(Advanced(f.(buffered := f.buffered - {f.nextSeq}), Length32(data)));
              Drain(f) == FlowStep(rest.flow, [data] + rest.chunks)
  {
  }

  lemma TrackDrainUnfolds(t: Track)
    ensures t.next !in t.held ==> TrackDrain(t) == TrackStep(t, [])
    ensures t.next in t.held ==>
              var data := t.held[t.next];
              var rest := TrackDrain(Track(t.first, t.next + |data|, t.held - {t.next}));
              TrackDrain(t) == TrackStep(rest.track, [data] + rest.chunks)
  {
  }

  lemma {:induction false} DrainRefines(f: Flow, t: Track, lo: int)
    requires Refines(f, t) && InSpan(t, lo) && TrackDrain(t).track.next < lo + UINT32_RANGE
    ensures Drain(f).chunks == TrackDrain(t).chunks
    ensures Refines(Drain(f).flow, TrackDrain(t).track)
    decreases |t.held|
  {
    hide Refines, Advanced, Length32, Wrap, Drain, TrackDrain;
    HeldLookup(f, t, t.next, lo);
    RefinesNext(f, t);
    DrainUnfolds(f);
    TrackDrainUnfolds(t);
    if t.next in t.held {
      var data := t.held[t.next];
      var u := Track(t.first, t.next + |data|, t.held - {t.next});
      var g := Advanced(f.(buffered := f.buffered - {f.nextSeq}), Length32(data));
      TrackNextGrows(u);
      TakeRefines(f, t, lo);
      DrainRefines(g, u, lo);
    }
  }

  lemma RefinesNext(f: Flow, t: Track)
    requires Refines(f, t)
    ensures f.started && f.nextSeq == Wrap(t.next) && f.bytesRead == t.next - t.first
  {
  }

  lemma DeliverRefines(f: Flow, t: Track, data: Bytes, lo: int)
    requires Refines(f, t) && InSpan(t, lo) && TrackDeliver(t, data).track.next < lo + UINT32_RANGE
    ensures Deliver(f, data).chunks == TrackDeliver(t, data).chunks
    ensures Refines(Deliver(f, data).flow, TrackDeliver(t, data).track)
  {
    hide Wrap, Length32, Advanced, Drain, TrackDrain;
    TrackNextGrows(t.(next := t.next + |data|));
    AdvanceRefines(f, t, data);
    DrainRefines(Advanced(f, Length32(data)), t.(next := t.next + |data|), lo);
  }

  /**
   * One segment, arriving within half the sequence space of the next position, does the same to the
   * 32-bit flow and to the unbounded track.
   */
  lemma PushRefines(f: Flow, t: Track, a: Arrival, lo: int)
    requires Refines(f, t) && InSpan(t, lo) && Near(t.next, a.pos) && |a.data| < UINT32_RANGE
    requires a.pos > t.next ==> a.pos < lo + UINT32_RANGE
    requires TrackPush(t, a).track.next < lo + UINT32_RANGE
    ensures PushFlow(f, Wrap(a.pos), a.data).chunks == TrackPush(t, a).chunks
    ensures Refines(PushFlow(f, Wrap(a.pos), a.data).flow, TrackPush(t, a).track)
  {
    hide Deliver, TrackDeliver;
    SeqOrder(a.pos, t.next);
    assert Length32(a.data) == |a.data|;
    if a.data != [] {
      if a.pos < t.next {
        if t.next - a.pos < |a.data| {
          DeliverRefines(f, t, a.data[t.next - a.pos..], lo);
        }
      } else if a.pos == t.next {
        DeliverRefines(f, t, a.data, lo);
      } else {
        HoldRefines(f, t, a, lo);
      }
    }
  }

  lemma HoldRefines(f: Flow, t: Track, a: Arrival, lo: int)
    requires Refines(f, t) && InSpan(t, lo) && lo <= a.pos < lo + UINT32_RANGE
    ensures Refines(Hold(f, Wrap(a.pos), a.data),
                    if a.pos in t.held then t else t.(held := t.held[a.pos := a.data]))
  {
    HeldLookup(f, t, a.pos, lo);
    if a.pos !in t.held {
      var f' := Hold(f, Wrap(a.pos), a.data);
      var held' := t.held[a.pos := a.data];
      forall p | p in held'
        ensures Wrap(p) in f'.buffered && f'.buffered[Wrap(p)] == held'[p]
      {
        if p != a.pos && Wrap(p) == Wrap(a.pos) {
          WrapInjective(p, a.pos);
        }
      }
      forall s | s in f'.buffered
        ensures exists p | p in held' :: Wrap(p) == s
      {
        if s == Wrap(a.pos) {
          assert a.pos in held';
        } else {
          var p :| p in t.held && Wrap(p) == s;
          assert p in held';
        }
      }
    }
  }

  // ---------------------------------------------------------------- runs

  /** All segments of one flow in order of arrival: the final state and everything delivered. */
  function RunFlow(f: Flow, arrivals: seq<Arrival>): FlowStep
    decreases |arrivals|
  {
    if arrivals == [] then FlowStep(f, [])
    else
      var step := PushFlow(f, Wrap(arrivals[0].pos), arrivals[0].data);
      var rest := RunFlow(step.flow, arrivals[1..]);
      FlowStep(rest.flow, step.chunks + rest.chunks)
  }

  function RunTrack(t: Track, arrivals: seq<Arrival>): TrackStep
    decreases |arrivals|
  {
    if arrivals == [] then TrackStep(t, [])
    else
      var step := TrackPush(t, arrivals[0]);
      var rest := RunTrack(step.track, arrivals[1..]);
      TrackStep(rest.track, step.chunks + rest.chunks)
  }

  /** Each segment arrives within half the sequence space of the position awaited at that time. */
  predicate AllNear(f: Flow, first: int, arrivals: seq<Arrival>)
    decreases |arrivals|
  {
    arrivals == [] ||
    (Near(first + f.bytesRead, arrivals[0].pos) &&
     AllNear(PushFlow(f, Wrap(arrivals[0].pos), arrivals[0].data).flow, first, arrivals[1..]))
  }

  /** The first segment of a flow starts its track. */
  lemma FirstRefines(a: Arrival)
    requires a.data != []
    ensures PushFlow(NEW_FLOW, Wrap(a.pos), a.data) ==
            PushFlow(Start(NEW_FLOW, Wrap(a.pos)), Wrap(a.pos), a.data)
    ensures Refines(Start(NEW_FLOW, Wrap(a.pos)), Track(a.pos, a.pos, map[]))
  {
  }

  // ---------------------------------------------------------------- invariant of every run

  /** Holds of a flow that started at sequence number `firstSeq`, whatever has arrived since. */
  ghost predicate FlowInvariant(f: Flow, firstSeq: uint32) {
    && f.started
    && f.nextSeq == Wrap(firstSeq + f.bytesRead)
    && f.nextSeq !in f.buffered
    && forall s | s in f.buffered :: f.buffered[s] != []
  }

  lemma {:induction false} DrainInvariant(f: Flow, firstSeq: uint32)
    requires f.started && f.nextSeq == Wrap(firstSeq + f.bytesRead)
    requires forall s | s in f.buffered :: f.buffered[s] != []
    ensures FlowInvariant(Drain(f).flow, firstSeq)
    decreases |f.buffered|
  {
    if f.nextSeq in f.buffered {
      var length := Length32(f.buffered[f.nextSeq]);
      WrapAdd(firstSeq + f.bytesRead, length);
      DrainInvariant(Advanced(f.(buffered := f.buffered - {f.nextSeq}), length), firstSeq);
    }
  }

  lemma DeliverInvariant(f: Flow, data: Bytes, firstSeq: uint32)
    requires f.started && f.nextSeq == Wrap(firstSeq + f.bytesRead)
    requires forall s | s in f.buffered :: f.buffered[s] != []
    ensures FlowInvariant(Deliver(f, data).flow, firstSeq)
  {
    WrapAdd(firstSeq + f.bytesRead, Length32(data));
    DrainInvariant(Advanced(f, Length32(data)), firstSeq);
  }

  /** Any segment at all keeps the invariant. */
  lemma PushKeepsInvariant(f: Flow, firstSeq: uint32, seqNo: uint32, data: Bytes)
    requires FlowInvariant(f, firstSeq)
    ensures FlowInvariant(PushFlow(f, seqNo, data).flow, firstSeq)
  {
    hide Deliver;
    if data != [] {
      DeliverInvariant(f, data, firstSeq);
      if SeqBefore(seqNo, f.nextSeq) && SeqDistance(seqNo, f.nextSeq) < Length32(data) {
        DeliverInvariant(f, data[SeqDistance(seqNo, f.nextSeq)..], firstSeq);
      }
    }
  }

  /** How many empty segments arrive before the first one that brings data. */
  function EmptyBefore(arrivals: seq<Arrival>): (n: nat)
    ensures n <= |arrivals| && (n < |arrivals| ==> arrivals[n].data != [])
    ensures forall i | 0 <= i < n :: arrivals[i].data == []
    decreases |arrivals|
  {
    if arrivals == [] || arrivals[0].data != [] then 0 else 1 + EmptyBefore(arrivals[1..])
  }

  /** Empty segments leave no trace, so any run is the run from its first non-empty segment on. */
  lemma {:induction false} EmptySegmentsVanish(arrivals: seq<Arrival>)
    ensures RunFlow(NEW_FLOW, arrivals) == RunFlow(NEW_FLOW, arrivals[EmptyBefore(arrivals)..])
    decreases |arrivals|
  {
    if arrivals != [] && arrivals[0].data == [] {
      var n := EmptyBefore(arrivals[1..]);
      assert arrivals[1..][n..] == arrivals[n + 1..];
      EmptySegmentsVanish(arrivals[1..]);
    }
  }

  /**
   * After any run of arbitrary segments: either none of them brought data and the flow is new, or
   * nextSeq is the sequence number of the first that did plus the bytes read, modulo 2^32, nothing
   * buffered could have been delivered, and nothing empty is buffered.
   */
  lemma RunInvariant(arrivals: seq<Arrival>)
    ensures var n := EmptyBefore(arrivals);
            if n == |arrivals| then RunFlow(NEW_FLOW, arrivals) == FlowStep(NEW_FLOW, [])
            else FlowInvariant(RunFlow(NEW_FLOW, arrivals).flow, Wrap(arrivals[n].pos))
  {
    hide PushFlow, FlowInvariant;
    EmptySegmentsVanish(arrivals);
    var rest := arrivals[EmptyBefore(arrivals)..];
    if rest != [] {
      StartedRunInvariant(rest);
    }
  }

  lemma StartedRunInvariant(arrivals: seq<Arrival>)
    requires arrivals != [] && arrivals[0].data != []
    ensures FlowInvariant(RunFlow(NEW_FLOW, arrivals).flow, Wrap(arrivals[0].pos))
  {
    hide PushFlow;
    var a := arrivals[0];
    var firstSeq := Wrap(a.pos);
    FirstRefines(a);
    PushKeepsInvariant(Start(NEW_FLOW, firstSeq), firstSeq, firstSeq, a.data);
    RunKeepsInvariant(PushFlow(NEW_FLOW, firstSeq, a.data).flow, firstSeq, arrivals[1..]);
  }

  lemma {:induction false} RunKeepsInvariant(f: Flow, firstSeq: uint32, arrivals: seq<Arrival>)
    requires FlowInvariant(f, firstSeq)
    ensures FlowInvariant(RunFlow(f, arrivals).flow, firstSeq)
    decreases |arrivals|
  {
    hide PushFlow, FlowInvariant;
    if arrivals != [] {
      PushKeepsInvariant(f, firstSeq, Wrap(arrivals[0].pos), arrivals[0].data);
      RunKeepsInvariant(PushFlow(f, Wrap(arrivals[0].pos), arrivals[0].data).flow, firstSeq, arrivals[1..]);
    }
  }
}
