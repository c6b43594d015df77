/** What the decoder emits on arbitrary bytes, oversize discards included. */
module DecoderSoundness {
  import opened Bytes
  import opened Fields
  import opened JsonScanner
  import opened Crc
  import opened Decoder
  import opened DecoderProperties

  /** Where in the whole input the raw bytes of each parsed message start; `base` is where the buffer does. */
  function Starts(unmarshal: Unmarshal, buffer: Bytes, base: int): seq<int>
    decreases |buffer|
  {
    StepShrinks(unmarshal, buffer);
    match NextStep(unmarshal, buffer)
    case Wait => []
    case Advance(size, messages, at) =>
      (if messages == [] then [] else [base + at]) + Starts(unmarshal, buffer[size..], base + size)
  }

  /** The same over a run of pushes, of which the first `seen` input bytes are already past. */
  function FeedStarts(unmarshal: Unmarshal, buffer: Bytes, seen: nat, chunks: seq<Bytes>): seq<int>
    decreases |chunks|
  {
    if chunks == [] then []
    else
      Starts(unmarshal, buffer + chunks[0], seen - |buffer|)
      + FeedStarts(unmarshal, Pushed(unmarshal, buffer, chunks[0]).rest, seen + |chunks[0]|, chunks[1..])
  }

  /** The payload of a frame with a right checksum lies at `input[start..end]`. */
  predicate InsideFrame(input: Bytes, start: int, end: int) {
    FRAME_HEADER_BYTES <= start < end <= |input| - FRAME_CHECKSUM_BYTES &&
    var frame := input[start - FRAME_HEADER_BYTES..end + FRAME_CHECKSUM_BYTES];
    FrameAt(frame, 0) && PayloadLength(frame) == end - start && ChecksumMatches(frame)
  }

  /** A minimal brace-balanced object lies at `input[start..end]`. */
  predicate IsObject(input: Bytes, start: int, end: int) {
    0 <= start < end <= |input| && ObjectEnd(input[start..end]) == Some(end - start)
  }

  predicate Genuine(unmarshal: Unmarshal, input: Bytes, start: int, m: Message) {
    var end := start + |m.raw|;
    0 <= start < end <= |input| && m.raw == input[start..end] && unmarshal(m.raw) == Some(m.fields) &&
    (InsideFrame(input, start, end) || IsObject(input, start, end))
  }

  /** The messages are genuine, disjoint and in input order, all between `lo` and `hi`. */
  ghost predicate Located(
    unmarshal: Unmarshal, input: Bytes, messages: seq<Message>, starts: seq<int>, lo: int, hi: int)
  {
    && |starts| == |messages|
    && lo <= hi
    && (forall i | 0 <= i < |messages| ::
          Genuine(unmarshal, input, starts[i], messages[i]) && lo <= starts[i] && starts[i] + |messages[i].raw| <= hi)
    && (forall i, j | 0 <= i < j < |messages| :: starts[i] + |messages[i].raw| <= starts[j])
  }

  lemma LocatedAppend(unmarshal: Unmarshal, input: Bytes, a: seq<Message>, x: seq<int>, b: seq<Message>, y: seq<int>,
                      lo: int, mid: int, hi: int)
    requires Located(unmarshal, input, a, x, lo, mid) && Located(unmarshal, input, b, y, mid, hi)
    ensures Located(unmarshal, input, a + b, x + y, lo, hi)
  {
    hide Genuine;
  }

  lemma LocatedNone(unmarshal: Unmarshal, input: Bytes, lo: int, hi: int)
    requires lo <= hi
    ensures Located(unmarshal, input, [], [], lo, hi)
  {
  }

  lemma SliceOfSlice(input: Bytes, buffer: Bytes, base: int, i: int, j: int)
    requires 0 <= base && base + |buffer| <= |input| && buffer == input[base..base + |buffer|]
    requires 0 <= i <= j <= |buffer|
    ensures buffer[i..j] == input[base + i..base + j]
  {
    assert forall k | i <= k < j :: buffer[k] == input[base + k];
    assert forall k | 0 <= k < j - i :: buffer[i..j][k] == input[base + i..base + j][k];
  }

  /** The message of one step, seen from the whole input. */
  lemma StepLocated(unmarshal: Unmarshal, input: Bytes, buffer: Bytes, base: int)
    requires 0 <= base && base + |buffer| <= |input| && buffer == input[base..base + |buffer|]
    requires NextStep(unmarshal, buffer).Advance?
    ensures var step := NextStep(unmarshal, buffer);
            step.size <= |buffer| &&
            Located(unmarshal, input, step.messages, if step.messages == [] then [] else [base + step.at],
                    base, base + step.size)
  {
    hide NextStep, Genuine, Located;
    StepConserves(unmarshal, buffer);
    var step := NextStep(unmarshal, buffer);
    if step.messages == [] {
      LocatedNone(unmarshal, input, base, base + step.size);
    } else {
      StepGenuine(unmarshal, input, buffer, base);
      var m := step.messages[0];
      LocatedOne(unmarshal, input, m, base + step.at, base, base + step.size);
      assert step.messages == [m];
    }
  }

  lemma LocatedOne(unmarshal: Unmarshal, input: Bytes, m: Message, start: int, lo: int, hi: int)
    requires Genuine(unmarshal, input, start, m) && lo <= start && start + |m.raw| <= hi
    ensures Located(unmarshal, input, [m], [start], lo, hi)
  {
    hide Genuine;
  }

  lemma StepGenuine(unmarshal: Unmarshal, input: Bytes, buffer: Bytes, base: int)
    requires 0 <= base && base + |buffer| <= |input| && buffer == input[base..base + |buffer|]
    requires NextStep(unmarshal, buffer).Advance? && NextStep(unmarshal, buffer).messages != []
    ensures var step := NextStep(unmarshal, buffer);
            Genuine(unmarshal, input, base + step.at, step.messages[0])
  {
    hide NextStep, Genuine, FrameStep, ObjectStep;
    StepKinds(unmarshal, buffer);
    if FrameAt(buffer, 0) {
      FrameGenuine(unmarshal, input, buffer, base);
    } else {
      ObjectGenuine(unmarshal, input, buffer, base);
    }
  }

  lemma FrameGenuine(unmarshal: Unmarshal, input: Bytes, buffer: Bytes, base: int)
    requires 0 <= base && base + |buffer| <= |input| && buffer == input[base..base + |buffer|]
    requires FrameAt(buffer, 0)
    requires var step := FrameStep(unmarshal, buffer);
             step.Advance? && step.messages != []
    ensures var step := FrameStep(unmarshal, buffer);
            Genuine(unmarshal, input, base + step.at, step.messages[0])
  {
    hide Checksum;
    var step := FrameStep(unmarshal, buffer);
    var frame := buffer[..step.size];
    SliceOfSlice(input, buffer, base, 0, step.size);
    assert frame == input[base..base + step.size];
    var raw := step.messages[0].raw;
    assert raw == frame[FRAME_HEADER_BYTES..step.size - FRAME_CHECKSUM_BYTES];
    SliceOfSlice(input, frame, base, FRAME_HEADER_BYTES, step.size - FRAME_CHECKSUM_BYTES);
    assert InsideFrame(input, base + step.at, base + step.at + |raw|);
  }

  lemma ObjectGenuine(unmarshal: Unmarshal, input: Bytes, buffer: Bytes, base: int)
    requires 0 <= base && base + |buffer| <= |input| && buffer == input[base..base + |buffer|]
    requires !FrameAt(buffer, 0)
    requires var step := NextStep(unmarshal, buffer);
             step.Advance? && step.messages != []
    ensures var step := NextStep(unmarshal, buffer);
            Genuine(unmarshal, input, base + step.at, step.messages[0])
  {
    hide CloseAfter;
    var step := NextStep(unmarshal, buffer);
    var raw := step.messages[0].raw;
    assert step == ObjectStep(unmarshal, buffer);
    SliceOfSlice(input, buffer, base, 0, |raw|);
    ObjectAlone(buffer);
    assert IsObject(input, base, base + |raw|);
  }

  /** The object that was found is also found in its own bytes. */
  lemma ObjectAlone(buffer: Bytes)
    requires ObjectEnd(buffer).Some?
    ensures var n := ObjectEnd(buffer).value; ObjectEnd(buffer[..n]) == Some(n)
  {
    hide CloseAfter, Fold;
    var n := ObjectEnd(buffer).value;
    ObjectEndIsMinimal(buffer, n);
    assert forall m | 0 <= m <= n :: buffer[..n][..m] == buffer[..m];
    ObjectEndIsMinimal(buffer[..n], n);
  }

  lemma {:induction false} ParseLocated(unmarshal: Unmarshal, input: Bytes, buffer: Bytes, base: int)
    requires 0 <= base && base + |buffer| <= |input| && buffer == input[base..base + |buffer|]
    ensures var parsed := Parse(unmarshal, buffer);
            |parsed.rest| <= |buffer| &&
            Located(unmarshal, input, parsed.messages, Starts(unmarshal, buffer, base),
                    base, base + |buffer| - |parsed.rest|)
    decreases |buffer|
  {
    hide NextStep, Parse, Located;
    ParseUnfolds(unmarshal, buffer);
    var step := NextStep(unmarshal, buffer);
    if step.Wait? {
      LocatedNone(unmarshal, input, base, base);
    } else {
      var rest := buffer[step.size..];
      assert rest == input[base + step.size..base + |buffer|];
      StepLocated(unmarshal, input, buffer, base);
      ParseLocated(unmarshal, input, rest, base + step.size);
      var tail := Parse(unmarshal, rest);
      LocatedAppend(unmarshal, input,
                    step.messages, if step.messages == [] then [] else [base + step.at],
                    tail.messages, Starts(unmarshal, rest, base + step.size),
                    base, base + step.size, base + |buffer| - |tail.rest|);
    }
  }

  lemma SettleIsSuffix(buffer: Bytes)
    ensures |Settle(buffer)| <= |buffer| && Settle(buffer) == buffer[|buffer| - |Settle(buffer)|..]
  {
  }

  lemma LocatedWiden(
    unmarshal: Unmarshal, input: Bytes, messages: seq<Message>, starts: seq<int>, lo: int, mid: int, hi: int)
    requires Located(unmarshal, input, messages, starts, lo, mid) && mid <= hi
    ensures Located(unmarshal, input, messages, starts, lo, hi)
  {
    hide Genuine;
  }

  /** The suffix of what has been seen that a push leaves in the buffer. */
  lemma PushedIsSuffix(unmarshal: Unmarshal, input: Bytes, buffer: Bytes, seen: nat, data: Bytes)
    requires |buffer| <= seen && seen + |data| <= |input|
    requires buffer + data == input[seen - |buffer|..seen + |data|]
    ensures var after := Pushed(unmarshal, buffer, data).rest;
            |after| <= |Parse(unmarshal, buffer + data).rest| <= seen + |data| &&
            after == input[seen + |data| - |after|..seen + |data|]
  {
    hide NextStep, Parse, Settle;
    var whole := buffer + data;
    RestIsSuffix(unmarshal, whole);
    var rest := Parse(unmarshal, whole).rest;
    SettleIsSuffix(rest);
    var after := Settle(rest);
    assert after == whole[|whole| - |after|..];
    assert after == input[seen + |data| - |after|..seen + |data|];
  }

  lemma ConcatNone()
    ensures Concat([]) == []
  {
  }

  /** The next chunk in the whole input, and the buffer extended by it. */
  lemma NextInput(input: Bytes, buffer: Bytes, seen: nat, chunks: seq<Bytes>)
    requires chunks != [] && |buffer| <= seen <= |input| && input[seen..] == Concat(chunks)
    requires buffer == input[seen - |buffer|..seen]
    ensures seen + |chunks[0]| <= |input| && input[seen + |chunks[0]|..] == Concat(chunks[1..])
    ensures buffer + chunks[0] == input[seen - |buffer|..seen + |chunks[0]|]
  {
    var data := chunks[0];
    var more := Concat(chunks[1..]);
    assert Concat(chunks) == data + more;
    assert input[seen..][..|data|] == data && input[seen..][|data|..] == more;
    assert input[seen..seen + |data|] == data;
  }

  lemma {:induction false} FeedLocated(unmarshal: Unmarshal, input: Bytes, buffer: Bytes, seen: nat, chunks: seq<Bytes>)
    requires |buffer| <= seen <= |input| && input[seen..] == Concat(chunks)
    requires buffer == input[seen - |buffer|..seen]
    ensures var fed := Feed(unmarshal, buffer, chunks);
            |fed.rest| <= |input| && fed.rest == input[|input| - |fed.rest|..] &&
            Located(unmarshal, input, fed.messages, FeedStarts(unmarshal, buffer, seen, chunks),
                    seen - |buffer|, |input| - |fed.rest|)
    decreases |chunks|
  {
    hide NextStep, Parse, Located, Settle, Starts, Concat;
    if chunks == [] {
      assert Concat([]) == [] by {
        ConcatNone();
      }
      LocatedNone(unmarshal, input, seen - |buffer|, |input| - |buffer|);
    } else {
      var data := chunks[0];
      var base := seen - |buffer|;
      NextInput(input, buffer, seen, chunks);
      var parsed := Parse(unmarshal, buffer + data);
      var after := Pushed(unmarshal, buffer, data).rest;
      PushedIsSuffix(unmarshal, input, buffer, seen, data);
      ParseLocated(unmarshal, input, buffer + data, base);
      LocatedWiden(unmarshal, input, parsed.messages, Starts(unmarshal, buffer + data, base), base,
                   seen + |data| - |parsed.rest|, seen + |data| - |after|);
      FeedLocated(unmarshal, input, after, seen + |data|, chunks[1..]);
      var others := Feed(unmarshal, after, chunks[1..]);
      LocatedAppend(unmarshal, input, parsed.messages, Starts(unmarshal, buffer + data, base),
                    others.messages, FeedStarts(unmarshal, after, seen + |data|, chunks[1..]),
                    base, seen + |data| - |after|, |input| - |others.rest|);
    }
  }

  /**
   * Soundness on any input in any chunking: the buffer is always a suffix of all input, and the
   * emitted messages are disjoint slices of the input before that suffix, in increasing order, each
   * the payload of a frame with a right checksum or a minimal brace-balanced object, and each
   * accepted by the JSON decoder.
   */
  lemma DecoderIsSound(unmarshal: Unmarshal, chunks: seq<Bytes>)
    ensures var input := Concat(chunks);
            var fed := Feed(unmarshal, [], chunks);
            |fed.rest| <= |input| && fed.rest == input[|input| - |fed.rest|..] &&
            Located(unmarshal, input, fed.messages, FeedStarts(unmarshal, [], 0, chunks), 0, |input| - |fed.rest|)
  {
    hide NextStep, Parse, Located, Settle;
    FeedLocated(unmarshal, Concat(chunks), [], 0, chunks);
  }
}
