/** Completeness of reassembly for streams cut into segments at fixed boundaries. */
module ReassemblyCompleteness {
  import opened Bytes
  import opened Reassembly
  import opened ReassemblyRefinement

  /** A stream of any length, cut into non-empty segments; `origin` is the position of its first byte. */
  datatype Cut = Cut(origin: int, segments: seq<Bytes>)

  predicate ValidCut(c: Cut) {
    forall i | 0 <= i < |c.segments| :: 0 < |c.segments[i]| <= INT32_RANGE
  }

  /** Where the `i`-th segment starts. */
  function PosOf(c: Cut, i: nat): int
    requires i <= |c.segments|
  {
    c.origin + |Concat(c.segments[..i])|
  }

  function ArrivalOf(c: Cut, i: nat): Arrival
    requires i < |c.segments|
  {
    Arrival(PosOf(c, i), c.segments[i])
  }

  predicate ValidOrder(c: Cut, order: seq<nat>) {
    forall k | 0 <= k < |order| :: order[k] < |c.segments|
  }

  function Arrivals(c: Cut, order: seq<nat>): seq<Arrival>
    requires ValidOrder(c, order)
  {
    seq(|order|, k requires 0 <= k < |order| => ArrivalOf(c, order[k]))
  }

  /** The segments received, as indices. */
  function Received(order: seq<nat>): set<nat> {
    set k | 0 <= k < |order| :: order[k]
  }

  /** The first segment from `i` on that has not been received. */
  function FirstMissing(c: Cut, received: set<nat>, i: nat): (e: nat)
    requires i <= |c.segments|
    ensures i <= e <= |c.segments|
    ensures forall j | i <= j < e :: j in received
    ensures e < |c.segments| ==> e !in received
    decreases |c.segments| - i
  {
    if i < |c.segments| && i in received then FirstMissing(c, received, i + 1) else i
  }

  // ---------------------------------------------------------------- positions

  lemma NextPos(c: Cut, i: nat)
    requires i < |c.segments|
    ensures PosOf(c, i + 1) == PosOf(c, i) + |c.segments[i]|
  {
    assert c.segments[..i + 1] == c.segments[..i] + [c.segments[i]];
    ConcatSnoc(c.segments[..i], c.segments[i]);
  }

  lemma {:induction false} PosOrdered(c: Cut, i: nat, j: nat)
    requires ValidCut(c) && i < j <= |c.segments|
    ensures PosOf(c, i) + |c.segments[i]| <= PosOf(c, j) && PosOf(c, i) < PosOf(c, j)
  {
    NextPos(c, j - 1);
    if i < j - 1 {
      PosOrdered(c, i, j - 1);
    }
  }

  lemma PosInjective(c: Cut, i: nat, j: nat)
    requires ValidCut(c) && i <= |c.segments| && j <= |c.segments| && PosOf(c, i) == PosOf(c, j)
    ensures i == j
  {
    if i < j {
      PosOrdered(c, i, j);
    } else if j < i {
      PosOrdered(c, j, i);
    }
  }

  // ---------------------------------------------------------------- the canonical state

  /** What is held is exactly the received segments from index `from` on. */
  ghost predicate HeldIs(c: Cut, held: map<int, Bytes>, received: set<nat>, from: nat) {
    && (forall i | i in received && from <= i < |c.segments| ::
          PosOf(c, i) in held && held[PosOf(c, i)] == c.segments[i])
    && (forall p | p in held :: exists i | i in received && from <= i < |c.segments| :: PosOf(c, i) == p)
  }

  /** The state is a function of which segments came, not of the order in which they came. */
  ghost predicate Canonical(c: Cut, t: Track, first: nat, received: set<nat>) {
    first <= |c.segments| &&
    var e := FirstMissing(c, received, first);
    t.first == PosOf(c, first) && t.next == PosOf(c, e) && HeldIs(c, t.held, received, e)
  }

  lemma HeldTake(c: Cut, held: map<int, Bytes>, received: set<nat>, e: nat)
    requires ValidCut(c) && e < |c.segments| && HeldIs(c, held, received, e)
    ensures HeldIs(c, held - {PosOf(c, e)}, received, e + 1)
  {
    var left := held - {PosOf(c, e)};
    forall i | i in received && e + 1 <= i < |c.segments|
      ensures PosOf(c, i) in left && left[PosOf(c, i)] == c.segments[i]
    {
      PosOrdered(c, e, i);
    }
    forall p | p in left
      ensures exists i | i in received && e + 1 <= i < |c.segments| :: PosOf(c, i) == p
    {
      var i :| i in received && e <= i < |c.segments| && PosOf(c, i) == p;
      assert i != e;
    }
  }

  /** Draining delivers exactly the received segments up to the first missing one. */
  lemma {:induction false} DrainCanonical(c: Cut, t: Track, received: set<nat>, e: nat)
    requires ValidCut(c) && e <= |c.segments| && t.next == PosOf(c, e) && HeldIs(c, t.held, received, e)
    ensures var end := FirstMissing(c, received, e);
            var step := TrackDrain(t);
            step.track.first == t.first && step.track.next == PosOf(c, end) &&
            HeldIs(c, step.track.held, received, end) && step.chunks == c.segments[e..end]
    decreases |c.segments| - e
  {
    hide HeldIs, TrackDrain, PosOf;
    TrackDrainUnfolds(t);
    HeldAt(c, t.held, received, e);
    if t.next in t.held {
      var data := c.segments[e];
      HeldTake(c, t.held, received, e);
      NextPos(c, e);
      DrainCanonical(c, Track(t.first, t.next + |data|, t.held - {t.next}), received, e + 1);
      var end := FirstMissing(c, received, e);
      assert c.segments[e..end] == [data] + c.segments[e + 1..end];
    } else {
      assert c.segments[e..e] == [];
    }
  }

  /** Whether the segment at the awaited position is held. */
  lemma HeldAt(c: Cut, held: map<int, Bytes>, received: set<nat>, e: nat)
    requires ValidCut(c) && e <= |c.segments| && HeldIs(c, held, received, e)
    ensures PosOf(c, e) in held <==> e < |c.segments| && e in received
    ensures e < |c.segments| && e in received ==> held[PosOf(c, e)] == c.segments[e]
  {
    hide PosOf;
    if PosOf(c, e) in held {
      var i :| i in received && e <= i < |c.segments| && PosOf(c, i) == PosOf(c, e);
      PosInjective(c, i, e);
    }
  }

  /** What is held is determined by what was received. */
  lemma HeldWithin(c: Cut, x: map<int, Bytes>, y: map<int, Bytes>, received: set<nat>, e: nat)
    requires HeldIs(c, x, received, e) && HeldIs(c, y, received, e)
    ensures x.Keys <= y.Keys && forall p | p in x :: x[p] == y[p]
  {
    hide PosOf;
    forall p | p in x
      ensures p in y && x[p] == y[p]
    {
      var i :| i in received && e <= i < |c.segments| && PosOf(c, i) == p;
    }
  }

  lemma HeldAdd(c: Cut, held: map<int, Bytes>, received: set<nat>, e: nat, i: nat)
    requires ValidCut(c) && e <= i < |c.segments| && HeldIs(c, held, received, e)
    ensures HeldIs(c, if PosOf(c, i) in held then held else held[PosOf(c, i) := c.segments[i]], received + {i}, e)
  {
    var p := PosOf(c, i);
    if p in held {
      var j :| j in received && e <= j < |c.segments| && PosOf(c, j) == p;
      PosInjective(c, i, j);
    } else {
      var more := held[p := c.segments[i]];
      forall j | j in received + {i} && e <= j < |c.segments|
        ensures PosOf(c, j) in more && more[PosOf(c, j)] == c.segments[j]
      {
        if PosOf(c, j) == p {
          PosInjective(c, i, j);
        }
      }
      forall q | q in more
        ensures exists j | j in received + {i} && e <= j < |c.segments| :: PosOf(c, j) == q
      {
        if q == p {
          assert i in received + {i};
        } else {
          var j :| j in received && e <= j < |c.segments| && PosOf(c, j) == q;
          assert j in received + {i};
        }
      }
    }
  }

  lemma HeldIgnores(c: Cut, held: map<int, Bytes>, received: set<nat>, e: nat, i: nat)
    requires HeldIs(c, held, received, e) && i < e
    ensures HeldIs(c, held, received + {i}, e)
  {
    forall q | q in held
      ensures exists j | j in received + {i} && e <= j < |c.segments| :: PosOf(c, j) == q
    {
      var j :| j in received && e <= j < |c.segments| && PosOf(c, j) == q;
      assert j in received + {i};
    }
  }

  lemma {:induction false} MissingSame(c: Cut, received: set<nat>, first: nat, i: nat)
    requires first <= |c.segments| && i != FirstMissing(c, received, first)
    ensures FirstMissing(c, received + {i}, first) == FirstMissing(c, received, first)
    decreases |c.segments| - first
  {
    if first < |c.segments| && first in received {
      MissingSame(c, received, first + 1, i);
    }
  }

  lemma {:induction false} MissingMoves(c: Cut, received: set<nat>, first: nat)
    requires first <= |c.segments| && FirstMissing(c, received, first) < |c.segments|
    ensures var e := FirstMissing(c, received, first);
            FirstMissing(c, received + {e}, first) == FirstMissing(c, received + {e}, e + 1)
    decreases |c.segments| - first
  {
    if first in received {
      MissingMoves(c, received, first + 1);
    }
  }

  /** One segment, new or duplicate: the state stays canonical and the newly contiguous segments come out. */
  lemma PushCanonical(c: Cut, t: Track, first: nat, received: set<nat>, i: nat)
    requires ValidCut(c) && i < |c.segments| && Canonical(c, t, first, received)
    ensures var step := TrackPush(t, ArrivalOf(c, i));
            Canonical(c, step.track, first, received + {i}) &&
            FirstMissing(c, received, first) <= FirstMissing(c, received + {i}, first) &&
            step.chunks == c.segments[FirstMissing(c, received, first)..FirstMissing(c, received + {i}, first)]
  {
    hide HeldIs, TrackDrain, PosOf;
    var e := FirstMissing(c, received, first);
    if i < e {
      PosOrdered(c, i, e);
      MissingSame(c, received, first, i);
      HeldIgnores(c, t.held, received, e, i);
    } else if i > e {
      PosOrdered(c, e, i);
      MissingSame(c, received, first, i);
      HeldAdd(c, t.held, received, e, i);
    } else {
      DeliverCanonical(c, t, first, received);
    }
  }

  lemma DeliverCanonical(c: Cut, t: Track, first: nat, received: set<nat>)
    requires ValidCut(c) && Canonical(c, t, first, received)
    requires FirstMissing(c, received, first) < |c.segments|
    ensures var e := FirstMissing(c, received, first);
            var step := TrackDeliver(t, c.segments[e]);
            var end := FirstMissing(c, received + {e}, first);
            Canonical(c, step.track, first, received + {e}) && e <= end && step.chunks == c.segments[e..end]
  {
    hide HeldIs, TrackDrain;
    var e := FirstMissing(c, received, first);
    NextPos(c, e);
    MissingMoves(c, received, first);
    HeldFrom(c, t.held, received, e);
    DrainCanonical(c, t.(next := t.next + |c.segments[e]|), received + {e}, e + 1);
    var end := FirstMissing(c, received + {e}, first);
    assert c.segments[e..end] == [c.segments[e]] + c.segments[e + 1..end];
  }

  /** The missing segment itself is not held, so from it on is the same as after it. */
  lemma HeldFrom(c: Cut, held: map<int, Bytes>, received: set<nat>, e: nat)
    requires e !in received && HeldIs(c, held, received, e)
    ensures HeldIs(c, held, received + {e}, e + 1)
  {
    forall q | q in held
      ensures exists j | j in received + {e} && e + 1 <= j < |c.segments| :: PosOf(c, j) == q
    {
      var j :| j in received && e <= j < |c.segments| && PosOf(c, j) == q;
      assert j in received + {e};
    }
  }

  // ---------------------------------------------------------------- the window

  /** Everything held is ahead of the awaited position, by less than half the sequence space. */
  ghost predicate Ahead(t: Track) {
    forall p | p in t.held :: t.next < p < t.next + INT32_RANGE && |t.held[p]| <= INT32_RANGE
  }

  /** How far a drain can get: not beyond the end of the last segment held. */
  lemma {:induction false} DrainReach(t: Track, bound: int)
    requires t.next <= bound + INT32_RANGE
    requires forall p | p in t.held :: p <= bound && |t.held[p]| <= INT32_RANGE
    ensures TrackDrain(t).track.next <= bound + INT32_RANGE
    decreases |t.held|
  {
    if t.next in t.held {
      DrainReach(Track(t.first, t.next + |t.held[t.next]|, t.held - {t.next}), bound);
    }
  }

  lemma PushReach(t: Track, a: Arrival)
    requires Ahead(t) && Near(t.next, a.pos) && |a.data| <= INT32_RANGE
    ensures TrackPush(t, a).track.next < t.next + UINT32_RANGE
  {
    hide TrackDrain;
    var bound := t.next + INT32_RANGE - 1;
    DrainReach(t.(next := t.next + |a.data|), bound);
    if a.pos < t.next && t.next - a.pos < |a.data| {
      DrainReach(t.(next := t.next + |a.data[t.next - a.pos..]|), bound);
    }
  }

  lemma CanonicalAhead(c: Cut, t: Track, first: nat, received: set<nat>)
    requires ValidCut(c) && Canonical(c, t, first, received)
    requires forall p | p in t.held :: p < t.next + INT32_RANGE
    ensures Ahead(t)
  {
    hide PosOf;
    var e := FirstMissing(c, received, first);
    forall p | p in t.held
      ensures t.next < p && |t.held[p]| <= INT32_RANGE
    {
      var i :| i in received && e <= i < |c.segments| && PosOf(c, i) == p;
      PosOrdered(c, e, i);
    }
  }

  lemma PushBelow(t: Track, a: Arrival)
    requires Ahead(t) && Near(t.next, a.pos)
    ensures var u := TrackPush(t, a).track;
            forall p | p in u.held :: p < u.next + INT32_RANGE
  {
    DrainMoves(t.(next := t.next + |a.data|));
    if a.pos < t.next && t.next - a.pos < |a.data| {
      DrainMoves(t.(next := t.next + |a.data[t.next - a.pos..]|));
    }
  }

  // ---------------------------------------------------------------- runs

  lemma {:induction false} RunCanonical(c: Cut, f: Flow, t: Track, first: nat, received: set<nat>, order: seq<nat>)
    requires ValidCut(c) && ValidOrder(c, order)
    requires Refines(f, t) && Canonical(c, t, first, received) && Ahead(t)
    requires AllNear(f, t.first, Arrivals(c, order))
    ensures var out := RunFlow(f, Arrivals(c, order));
            var all := received + Received(order);
            (exists u: Track :: Refines(out.flow, u) && Canonical(c, u, first, all)) &&
            FirstMissing(c, received, first) <= FirstMissing(c, all, first) &&
            out.chunks == c.segments[FirstMissing(c, received, first)..FirstMissing(c, all, first)]
    decreases |order|
  {
    hide Refines, Canonical, TrackPush, PushFlow, Ahead, FirstMissing, PosOf;
    if order == [] {
      assert received + Received(order) == received;
    } else {
      var i := order[0];
      var a := ArrivalOf(c, i);
      var others := order[1..];
      assert Arrivals(c, order)[0] == a && Arrivals(c, order)[1..] == Arrivals(c, others);
      var step := PushFlow(f, Wrap(a.pos), a.data);
      var moved := TrackPush(t, a);
      OneStep(c, f, t, first, received, i);
      var all := received + Received(order);
      assert all == received + {i} + Received(others) by {
        assert Received(order) == {i} + Received(others) by {
          assert forall k | 0 <= k < |others| :: others[k] == order[k + 1];
        }
      }
      RunCanonical(c, step.flow, moved.track, first, received + {i}, others);
      var e, n := FirstMissing(c, received, first), FirstMissing(c, all, first);
      var m := FirstMissing(c, received + {i}, first);
      assert c.segments[e..m] + c.segments[m..n] == c.segments[e..n];
    }
  }

  lemma OneStep(c: Cut, f: Flow, t: Track, first: nat, received: set<nat>, i: nat)
    requires ValidCut(c) && i < |c.segments|
    requires Refines(f, t) && Canonical(c, t, first, received) && Ahead(t)
    requires Near(t.first + f.bytesRead, PosOf(c, i))
    ensures var a := ArrivalOf(c, i);
            var step := PushFlow(f, Wrap(a.pos), a.data);
            var moved := TrackPush(t, a);
            Refines(step.flow, moved.track) && moved.track.first == t.first &&
            Canonical(c, moved.track, first, received + {i}) && Ahead(moved.track) &&
            step.chunks == moved.chunks &&
            FirstMissing(c, received, first) <= FirstMissing(c, received + {i}, first) &&
            step.chunks == c.segments[FirstMissing(c, received, first)..FirstMissing(c, received + {i}, first)]
  {
    hide TrackPush, PushFlow, Refines, PosOf;
    var a := ArrivalOf(c, i);
    RefinesNext(f, t);
    PushCanonical(c, t, first, received, i);
    PushReach(t, a);
    PushRefines(f, t, a, t.next);
    PushBelow(t, a);
    CanonicalAhead(c, TrackPush(t, a).track, first, received + {i});
  }

  /**
   * For a stream of unbounded length cut at fixed boundaries, with segments arriving in any order,
   * any number of times, and across any number of sequence number wraparounds: the chunks delivered
   * so far are exactly the segments from the first captured one up to the first missing one, and
   * nextSeq and bytesRead say where that is.
   */
  lemma ReassemblyIsComplete(c: Cut, order: seq<nat>)
    requires ValidCut(c) && ValidOrder(c, order) && order != []
    requires AllNear(NEW_FLOW, PosOf(c, order[0]), Arrivals(c, order))
    ensures var out := RunFlow(NEW_FLOW, Arrivals(c, order));
            var first := order[0];
            var end := FirstMissing(c, Received(order), first);
            out.chunks == c.segments[first..end] &&
            out.flow.bytesRead == PosOf(c, end) - PosOf(c, first) &&
            out.flow.nextSeq == Wrap(PosOf(c, end))
  {
    hide PushFlow, AllNear, PosOf;
    var u := RunFromFirst(c, order);
    RefinesNext(RunFlow(NEW_FLOW, Arrivals(c, order)).flow, u);
  }

  lemma RunFromFirst(c: Cut, order: seq<nat>) returns (u: Track)
    requires ValidCut(c) && ValidOrder(c, order) && order != []
    requires AllNear(NEW_FLOW, PosOf(c, order[0]), Arrivals(c, order))
    ensures var out := RunFlow(NEW_FLOW, Arrivals(c, order));
            Refines(out.flow, u) && Canonical(c, u, order[0], Received(order)) &&
            out.chunks == c.segments[order[0]..FirstMissing(c, Received(order), order[0])]
  {
    hide PushFlow, Refines, PosOf;
    var first := order[0];
    var arrivals := Arrivals(c, order);
    var t := Track(PosOf(c, first), PosOf(c, first), map[]);
    var start := Start(NEW_FLOW, Wrap(PosOf(c, first)));
    FirstRefines(arrivals[0]);
    RefinesNext(start, t);
    assert Canonical(c, t, first, {});
    RunCanonical(c, start, t, first, {}, order);
    assert {} + Received(order) == Received(order);
    var out := RunFlow(NEW_FLOW, arrivals);
    assert out == RunFlow(start, arrivals);
    u :| Refines(out.flow, u) && Canonical(c, u, first, Received(order));
  }

  /** Once every segment has come, everything from the first captured one on has been delivered. */
  lemma AllDelivered(c: Cut, order: seq<nat>)
    requires ValidCut(c) && ValidOrder(c, order) && order != []
    requires AllNear(NEW_FLOW, PosOf(c, order[0]), Arrivals(c, order))
    requires forall i | order[0] <= i < |c.segments| :: i in Received(order)
    ensures var out := RunFlow(NEW_FLOW, Arrivals(c, order));
            out.chunks == c.segments[order[0]..] && out.flow.buffered == map[]
  {
    hide PushFlow, AllNear, PosOf, Arrivals;
    ReassemblyIsComplete(c, order);
    var u := RunFromFirst(c, order);
    var out := RunFlow(NEW_FLOW, Arrivals(c, order));
    var end := FirstMissing(c, Received(order), order[0]);
    assert end == |c.segments|;
    HeldWithin(c, u.held, map[], Received(order), end);
    assert out.flow.buffered == map[];
  }

  lemma RefinesWithin(f: Flow, t: Track, g: Flow, u: Track)
    requires Refines(f, t) && Refines(g, u)
    requires t.held.Keys <= u.held.Keys && forall p | p in t.held :: t.held[p] == u.held[p]
    ensures forall s | s in f.buffered :: s in g.buffered && f.buffered[s] == g.buffered[s]
  {
    hide Wrap;
    forall s | s in f.buffered
      ensures s in g.buffered && f.buffered[s] == g.buffered[s]
    {
      var p :| p in t.held && Wrap(p) == s;
    }
  }

  /** Two flows that refine the same canonical state are the same flow. */
  lemma CanonicalUnique(c: Cut, f: Flow, t: Track, g: Flow, u: Track, first: nat, received: set<nat>)
    requires Refines(f, t) && Refines(g, u)
    requires Canonical(c, t, first, received) && Canonical(c, u, first, received)
    ensures f == g
  {
    hide PosOf, Wrap;
    var e := FirstMissing(c, received, first);
    HeldWithin(c, t.held, u.held, received, e);
    HeldWithin(c, u.held, t.held, received, e);
    RefinesWithin(f, t, g, u);
    RefinesWithin(g, u, f, t);
    assert f.buffered == g.buffered;
  }

  /**
   * The order of arrival does not matter: two runs that start with the same segment and receive the
   * same set of segments deliver the same chunks and end in the same state.
   */
  lemma OrderIndependence(c: Cut, one: seq<nat>, two: seq<nat>)
    requires ValidCut(c) && ValidOrder(c, one) && ValidOrder(c, two)
    requires one != [] && two != [] && one[0] == two[0] && Received(one) == Received(two)
    requires AllNear(NEW_FLOW, PosOf(c, one[0]), Arrivals(c, one))
    requires AllNear(NEW_FLOW, PosOf(c, two[0]), Arrivals(c, two))
    ensures RunFlow(NEW_FLOW, Arrivals(c, one)) == RunFlow(NEW_FLOW, Arrivals(c, two))
  {
    hide PushFlow, AllNear, PosOf, Refines, Canonical, Arrivals, FirstMissing;
    var t := RunFromFirst(c, one);
    var u := RunFromFirst(c, two);
    CanonicalUnique(c, RunFlow(NEW_FLOW, Arrivals(c, one)).flow, t,
                    RunFlow(NEW_FLOW, Arrivals(c, two)).flow, u, one[0], Received(one));
  }
}
