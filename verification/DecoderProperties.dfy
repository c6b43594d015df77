/** What the decoder guarantees: independence of chunking, bounds, soundness and conservation. */
module DecoderProperties {
  import opened Bytes
  import opened Fields
  import opened JsonScanner
  import opened Crc
  import opened Decoder

  // ---------------------------------------------------------------- stability of decisions

  lemma FirstBraceStable(a: Bytes, b: Bytes)
    ensures FirstBrace(a) >= 0 ==> FirstBrace(a + b) == FirstBrace(a)
    ensures FirstBrace(a) < 0 ==> FirstBrace(a + b) < 0 || FirstBrace(a + b) >= |a|
  {
    assert forall j | 0 <= j < |a| :: (a + b)[j] == a[j];
    var i, k := FirstBrace(a), FirstBrace(a + b);
    assert 0 <= k < |a| ==> a[k] == OPEN_BRACE;
  }

  lemma FirstFrameStable(a: Bytes, b: Bytes)
    ensures FirstFrame(a) >= 0 ==> FirstFrame(a + b) == FirstFrame(a)
    ensures FirstFrame(a) < 0 ==> FirstFrame(a + b) < 0 || FirstFrame(a + b) >= |a| - 1
  {
    assert forall j | 0 <= j < |a| - 1 :: FrameAt(a + b, j) == FrameAt(a, j);
    var i, k := FirstFrame(a), FirstFrame(a + b);
    if i >= 0 {
      assert FrameAt(a + b, i);
    }
    assert 0 <= k < |a| - 1 ==> FrameAt(a, k);
  }

  /** A decision to advance never depends on bytes that have not arrived yet. */
  lemma StepStable(unmarshal: Unmarshal, a: Bytes, b: Bytes)
    requires NextStep(unmarshal, a).Advance?
    ensures NextStep(unmarshal, a + b) == NextStep(unmarshal, a)
  {
    hide Checksum, CloseAfter;
    if FrameAt(a, 0) {
      assert FrameAt(a + b, 0);
      FrameStepStable(unmarshal, a, b);
    } else {
      FirstBraceStable(a, b);
      FirstFrameStable(a, b);
      if FirstBrace(a) == 0 {
        ObjectEndStable(a, b);
        var n := ObjectEnd(a).value;
        assert (a + b)[..n] == a[..n];
        assert !FrameAt(a + b, 0);
      } else {
        assert |a| >= 2;
        assert !FrameAt(a + b, 0);
      }
    }
  }

  lemma FrameStepStable(unmarshal: Unmarshal, a: Bytes, b: Bytes)
    requires FrameStep(unmarshal, a).Advance?
    ensures FrameStep(unmarshal, a + b) == FrameStep(unmarshal, a)
  {
    hide FrameMessages;
    assert PayloadLength(a + b) == PayloadLength(a);
    var size := FRAME_HEADER_BYTES + PayloadLength(a) + FRAME_CHECKSUM_BYTES;
    if size <= |a| {
      assert (a + b)[..size] == a[..size];
    }
  }

  /** A frame mark whose length header is impossible costs exactly one byte. */
  lemma ImpossibleLengthCostsOneByte(unmarshal: Unmarshal, b: Bytes)
    requires |b| >= 7 && b[0] == 0x01 && b[1] == 0x01
    requires (((b[3] as nat * 256) + b[4] as nat) * 256 + b[5] as nat) * 256 + b[6] as nat > 65536
    ensures Parse(unmarshal, b) == Parse(unmarshal, b[1..])
  {
    hide Parse;
    ParseUnfolds(unmarshal, b);
    assert NextStep(unmarshal, b) == Advance(1, [], 0);
    var tail := Parse(unmarshal, b[1..]);
    assert [] + tail.messages == tail.messages;
  }

  // ---------------------------------------------------------------- chunking independence

  lemma AppendAssociates<T>(a: seq<T>, b: seq<T>, c: seq<T>)
    ensures (a + b) + c == a + (b + c)
  {
  }

  /** Parsing in two instalments is parsing at once, for any bytes at all. */
  lemma {:induction false} ParseAppend(unmarshal: Unmarshal, a: Bytes, b: Bytes)
    ensures var first := Parse(unmarshal, a);
            var second := Parse(unmarshal, first.rest + b);
            Parse(unmarshal, a + b) == Parsed(first.messages + second.messages, second.rest)
    decreases |a|
  {
    hide NextStep, Parse;
    ParseUnfolds(unmarshal, a);
    var step := NextStep(unmarshal, a);
    var first := Parse(unmarshal, a);
    var second := Parse(unmarshal, first.rest + b);
    if step.Wait? {
      assert [] + second.messages == second.messages;
    } else {
      StepStable(unmarshal, a, b);
      ParseUnfolds(unmarshal, a + b);
      var tail := a[step.size..];
      assert (a + b)[step.size..] == tail + b;
      ParseAppend(unmarshal, tail, b);
      AppendAssociates(step.messages, Parse(unmarshal, tail).messages, second.messages);
    }
  }

  /** What is left after parsing is undecided: parsing it again changes nothing. */
  lemma {:induction false} ParseRest(unmarshal: Unmarshal, a: Bytes)
    ensures NextStep(unmarshal, Parse(unmarshal, a).rest).Wait?
    decreases |a|
  {
    hide NextStep, Parse;
    ParseUnfolds(unmarshal, a);
    var step := NextStep(unmarshal, a);
    if step.Advance? {
      ParseRest(unmarshal, a[step.size..]);
    }
  }

  /** A run of pushes: all messages in order, and the final buffer. */
  function Feed(unmarshal: Unmarshal, buffer: Bytes, chunks: seq<Bytes>): Parsed
    decreases |chunks|
  {
    if chunks == [] then Parsed([], buffer)
    else
      var first := Pushed(unmarshal, buffer, chunks[0]);
      var others := Feed(unmarshal, first.rest, chunks[1..]);
      Parsed(first.messages + others.messages, others.rest)
  }

  lemma {:induction false} FeedAppend(unmarshal: Unmarshal, buffer: Bytes, a: seq<Bytes>, b: seq<Bytes>)
    ensures var first := Feed(unmarshal, buffer, a);
            var second := Feed(unmarshal, first.rest, b);
            Feed(unmarshal, buffer, a + b) == Parsed(first.messages + second.messages, second.rest)
    decreases |a|
  {
    hide Pushed;
    if a == [] {
      assert a + b == b;
      var all := Feed(unmarshal, buffer, b);
      assert [] + all.messages == all.messages;
    } else {
      var step := Pushed(unmarshal, buffer, a[0]);
      assert (a + b)[0] == a[0] && (a + b)[1..] == a[1..] + b;
      FeedAppend(unmarshal, step.rest, a[1..], b);
      var first := Feed(unmarshal, step.rest, a[1..]);
      AppendAssociates(step.messages, first.messages, Feed(unmarshal, first.rest, b).messages);
    }
  }

  /** Waiting on `rest`, the decoder keeps all of it: it is short, or starts with its only brace. */
  predicate Settled(rest: Bytes) {
    Settle(rest) == rest
  }

  /** Every push but the last leaves something undecided of which nothing is discarded. */
  ghost predicate NeverDiscards(unmarshal: Unmarshal, buffer: Bytes, chunks: seq<Bytes>) {
    forall k | 0 <= k < |chunks| :: Settled(Parse(unmarshal, buffer + Concat(chunks[..k])).rest)
  }

  /** Without discards, any chunking of a stream decodes as one push of the whole stream does. */
  lemma {:induction false} ChunkingIndependence(unmarshal: Unmarshal, buffer: Bytes, chunks: seq<Bytes>)
    requires NextStep(unmarshal, buffer).Wait? && Settled(buffer)
    requires NeverDiscards(unmarshal, buffer, chunks)
    ensures Feed(unmarshal, buffer, chunks) == Pushed(unmarshal, buffer, Concat(chunks))
    decreases |chunks|
  {
    hide NextStep, Parse, Settle;
    if chunks == [] {
      assert buffer + Concat(chunks) == buffer;
      ParseUnfolds(unmarshal, buffer);
    } else {
      var first := Parse(unmarshal, buffer + chunks[0]);
      var more := Concat(chunks[1..]);
      assert buffer + Concat(chunks) == buffer + chunks[0] + more;
      ParseRest(unmarshal, buffer + chunks[0]);
      ParseAppend(unmarshal, buffer + chunks[0], more);
      if |chunks| == 1 {
        assert buffer + chunks[0] + more == buffer + chunks[0];
        assert first.messages + [] == first.messages;
      } else {
        LaterNeverDiscards(unmarshal, buffer, chunks);
        ChunkingIndependence(unmarshal, first.rest, chunks[1..]);
      }
    }
  }

  lemma LaterNeverDiscards(unmarshal: Unmarshal, buffer: Bytes, chunks: seq<Bytes>)
    requires |chunks| > 1 && NeverDiscards(unmarshal, buffer, chunks)
    ensures var rest := Parse(unmarshal, buffer + chunks[0]).rest;
            Settled(rest) && NeverDiscards(unmarshal, rest, chunks[1..])
  {
    hide NextStep, Parse, Settle;
    var rest := Parse(unmarshal, buffer + chunks[0]).rest;
    forall k | 0 <= k < |chunks| - 1
      ensures Settled(Parse(unmarshal, rest + Concat(chunks[1..][..k])).rest)
    {
      var later := Concat(chunks[1..][..k]);
      assert chunks[..k + 1] == [chunks[0]] + chunks[1..][..k];
      ConcatAppend([chunks[0]], chunks[1..][..k]);
      ConcatOne(chunks[0]);
      assert buffer + Concat(chunks[..k + 1]) == buffer + chunks[0] + later;
      ParseAppend(unmarshal, buffer + chunks[0], later);
    }
    assert chunks[..1] == [chunks[0]];
    ConcatOne(chunks[0]);
  }

  lemma {:induction false} RestIsSuffix(unmarshal: Unmarshal, a: Bytes)
    ensures var rest := Parse(unmarshal, a).rest;
            |rest| <= |a| && rest == a[|a| - |rest|..]
    decreases |a|
  {
    hide NextStep, Parse;
    ParseUnfolds(unmarshal, a);
    var step := NextStep(unmarshal, a);
    if step.Advance? {
      RestIsSuffix(unmarshal, a[step.size..]);
    }
  }

  lemma {:induction false} ConcatPrefix(chunks: seq<Bytes>, k: nat)
    requires k <= |chunks|
    ensures Concat(chunks) == Concat(chunks[..k]) + Concat(chunks[k..])
  {
    ConcatAppend(chunks[..k], chunks[k..]);
    assert chunks == chunks[..k] + chunks[k..];
  }

  /**
   * `Push(a)` then `Push(b)` is `Push(a ++ b)`, messages and buffer alike, as long as buffered and
   * pushed bytes stay within the limit; likewise for any number of pushes.
   */
  lemma ChunkingWithinLimit(unmarshal: Unmarshal, buffer: Bytes, chunks: seq<Bytes>)
    requires NextStep(unmarshal, buffer).Wait?
    requires |buffer| + |Concat(chunks)| <= 0x10_0000
    ensures Feed(unmarshal, buffer, chunks) == Feed(unmarshal, buffer, [Concat(chunks)])
  {
    hide NextStep, Parse;
    forall k | 0 <= k < |chunks|
      ensures Settled(Parse(unmarshal, buffer + Concat(chunks[..k])).rest)
    {
      ConcatPrefix(chunks, k);
      RestIsSuffix(unmarshal, buffer + Concat(chunks[..k]));
    }
    ChunkingIndependence(unmarshal, buffer, chunks);
    var after := Pushed(unmarshal, buffer, Concat(chunks));
    assert [Concat(chunks)][1..] == [];
    assert Feed(unmarshal, buffer, [Concat(chunks)]) == Parsed(after.messages + [], after.rest);
  }

  // ---------------------------------------------------------------- buffer bound

  /**
   * After every push the buffer holds at most 2^20 bytes, or starts with the only brace in it.
   */
  lemma BufferBound(unmarshal: Unmarshal, buffer: Bytes, data: Bytes)
    ensures var after := Pushed(unmarshal, buffer, data).rest;
            |after| <= 0x10_0000 ||
            (after[0] == OPEN_BRACE && forall j | 1 <= j < |after| :: after[j] != OPEN_BRACE)
  {
    hide NextStep, Parse;
    var rest := Parse(unmarshal, buffer + data).rest;
    var start := LastBrace(rest);
    if |rest| > MAX_BUFFERED_BYTES && start >= 0 {
      assert forall j | 0 <= j < |rest| - start :: rest[start..][j] == rest[start + j];
    }
  }

  // ---------------------------------------------------------------- conservation

  function RawBytes(messages: seq<Message>): nat {
    if messages == [] then 0 else |messages[0].raw| + RawBytes(messages[1..])
  }

  lemma {:induction false} RawBytesAppend(a: seq<Message>, b: seq<Message>)
    ensures RawBytes(a + b) == RawBytes(a) + RawBytes(b)
  {
    if a == [] {
      assert a + b == b;
    } else {
      assert (a + b)[1..] == a[1..] + b;
      RawBytesAppend(a[1..], b);
    }
  }

  lemma StepConserves(unmarshal: Unmarshal, buffer: Bytes)
    ensures var step := NextStep(unmarshal, buffer);
            step.Advance? ==>
              0 < step.size <= |buffer| && |step.messages| <= 1 &&
              (step.messages != [] ==>
                var raw := step.messages[0].raw;
                raw != [] && step.at + |raw| <= step.size && raw == buffer[step.at..step.at + |raw|]) &&
              RawBytes(step.messages) <= step.size
  {
    hide CloseAfter, Checksum;
    StepShrinks(unmarshal, buffer);
    var step := NextStep(unmarshal, buffer);
    if step.Advance? && step.messages != [] {
      var raw := step.messages[0].raw;
      assert RawBytes(step.messages) == |raw| by {
        assert step.messages[1..] == [];
      }
      if FrameAt(buffer, 0) {
        assert raw == buffer[..step.size][FRAME_HEADER_BYTES..step.size - FRAME_CHECKSUM_BYTES];
      }
    }
  }

  lemma {:induction false} ParseConserves(unmarshal: Unmarshal, buffer: Bytes)
    ensures var parsed := Parse(unmarshal, buffer);
            RawBytes(parsed.messages) + |parsed.rest| <= |buffer|
    decreases |buffer|
  {
    hide NextStep, Parse;
    ParseUnfolds(unmarshal, buffer);
    StepConserves(unmarshal, buffer);
    var step := NextStep(unmarshal, buffer);
    if step.Advance? {
      var tail := Parse(unmarshal, buffer[step.size..]);
      ParseConserves(unmarshal, buffer[step.size..]);
      RawBytesAppend(step.messages, tail.messages);
    }
  }

  /** Emitted bytes and buffered bytes come out of the bytes that went in. */
  lemma PushConserves(unmarshal: Unmarshal, buffer: Bytes, data: Bytes)
    ensures var after := Pushed(unmarshal, buffer, data);
            RawBytes(after.messages) + |after.rest| <= |buffer| + |data|
  {
    hide NextStep, Parse;
    ParseConserves(unmarshal, buffer + data);
  }
}
