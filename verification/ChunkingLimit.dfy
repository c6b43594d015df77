/** Exactly when the cutting of a stream into pushes matters to the decoder. */
module ChunkingLimit {
  import opened Bytes
  import opened Fields
  import opened Crc
  import opened JsonScanner
  import G = JsonGrammar
  import opened Decoder
  import opened DecoderProperties

  /** Whatever comes next, and whatever the JSON decoder accepts, two pushes do as one. */
  ghost predicate CutDoesNotMatter(buffer: Bytes, a: Bytes) {
    forall u: Unmarshal, b: Bytes :: CutAgrees(u, buffer, a, b)
  }

  predicate CutAgrees(unmarshal: Unmarshal, buffer: Bytes, a: Bytes, b: Bytes) {
    Feed(unmarshal, buffer, [a, b]) == Feed(unmarshal, buffer, [a + b])
  }

  // ---------------------------------------------------------------- two pushes, one push

  /** Two pushes parse the settled rest of the first, one push parses all of it. */
  lemma CutUnfolds(unmarshal: Unmarshal, buffer: Bytes, a: Bytes, b: Bytes)
    ensures var first := Parse(unmarshal, buffer + a);
            var two := Parse(unmarshal, Settle(first.rest) + b);
            var one := Parse(unmarshal, first.rest + b);
            CutAgrees(unmarshal, buffer, a, b) <==>
            first.messages + two.messages == first.messages + one.messages && Settle(two.rest) == Settle(one.rest)
  {
    hide NextStep, Parse, Settle;
    var first := Pushed(unmarshal, buffer, a);
    var second := Pushed(unmarshal, first.rest, b);
    assert [a, b][1..] == [b] && [b][1..] == [] && [a + b][1..] == [];
    assert Feed(unmarshal, first.rest, [b]) == Parsed(second.messages + [], second.rest);
    assert Feed(unmarshal, buffer, [a, b]) == Parsed(first.messages + second.messages, second.rest);
    var whole := Pushed(unmarshal, buffer, a + b);
    assert Feed(unmarshal, buffer, [a + b]) == Parsed(whole.messages + [], whole.rest);
    assert buffer + (a + b) == buffer + a + b;
    ParseAppend(unmarshal, buffer + a, b);
  }

  /** What is left undecided does not depend on which JSON is accepted. */
  lemma {:induction false} RestIgnoresUnmarshal(u: Unmarshal, v: Unmarshal, data: Bytes)
    ensures Parse(u, data).rest == Parse(v, data).rest
    decreases |data|
  {
    hide NextStep, Parse;
    ParseUnfolds(u, data);
    ParseUnfolds(v, data);
    StepIgnoresUnmarshal(u, v, data);
    if NextStep(u, data).Advance? {
      RestIgnoresUnmarshal(u, v, data[NextStep(u, data).size..]);
    }
  }

  lemma StepIgnoresUnmarshal(u: Unmarshal, v: Unmarshal, data: Bytes)
    ensures NextStep(u, data).Wait? <==> NextStep(v, data).Wait?
    ensures NextStep(u, data).Advance? ==> NextStep(u, data).size == NextStep(v, data).size
  {
    hide Checksum, CloseAfter, Accepted;
  }

  // ---------------------------------------------------------------- what an unsettled rest looks like

  /** What is undecided is short, unless it starts with a brace or has none. */
  lemma WaitingShape(unmarshal: Unmarshal, rest: Bytes)
    requires NextStep(unmarshal, rest).Wait?
    ensures |rest| <= MAX_BUFFERED_BYTES || !FrameAt(rest, 0)
    ensures !FrameAt(rest, 0) && FirstBrace(rest) >= 0 ==> FirstBrace(rest) == 0 && ObjectEnd(rest).None?
    ensures !FrameAt(rest, 0) && FirstBrace(rest) < 0 ==> FirstFrame(rest) < 0
  {
    hide CloseAfter, Checksum;
    if FrameAt(rest, 0) {
      assert FrameStep(unmarshal, rest).Wait?;
    }
  }

  /** Bytes that start with a brace parse by their object alone. */
  lemma ObjectParse(unmarshal: Unmarshal, data: Bytes)
    requires data != [] && data[0] == OPEN_BRACE
    ensures ObjectEnd(data).None? ==> Parse(unmarshal, data) == Parsed([], data)
    ensures ObjectEnd(data).Some? ==>
              var n := ObjectEnd(data).value;
              var tail := Parse(unmarshal, data[n..]);
              Parse(unmarshal, data) == Parsed(Accepted(unmarshal, data[..n]) + tail.messages, tail.rest)
  {
    hide NextStep, Parse, CloseAfter;
    assert !FrameAt(data, 0) && FirstBrace(data) == 0;
    StepKinds(unmarshal, data);
    ParseUnfolds(unmarshal, data);
  }

  // ---------------------------------------------------------------- garbage without a brace

  predicate NoBrace(data: Bytes) {
    FirstBrace(data) < 0
  }

  /** A zero byte makes garbage longer and nothing else. */
  lemma GarbageGrows(unmarshal: Unmarshal, garbage: Bytes)
    requires NoBrace(garbage) && FirstFrame(garbage) < 0
    ensures Parse(unmarshal, garbage + [0]) == Parsed([], garbage + [0])
    ensures NoBrace(garbage + [0])
  {
    hide CloseAfter, Checksum;
    var longer := garbage + [0];
    FirstBraceStable(garbage, [0]);
    FirstFrameStable(garbage, [0]);
    assert !FrameAt(longer, |garbage| - 1);
    assert NextStep(unmarshal, longer).Wait?;
  }

  /** Discarded garbage would have been discarded together with the next byte. */
  lemma GarbageIsTold(unmarshal: Unmarshal, buffer: Bytes, a: Bytes)
    requires var rest := Parse(unmarshal, buffer + a).rest;
             !Settled(rest) && NoBrace(rest) && FirstFrame(rest) < 0
    ensures !CutAgrees(unmarshal, buffer, a, [0])
  {
    hide NextStep, Parse, FirstBrace, FirstFrame;
    var rest := Parse(unmarshal, buffer + a).rest;
    CutUnfolds(unmarshal, buffer, a, [0]);
    assert Settle(rest) == [];
    EmptyIsGarbage();
    GarbageGrows(unmarshal, rest);
    GarbageGrows(unmarshal, []);
    assert [] + [0] == [0];
    ZeroIsSettled(rest);
  }

  lemma ZeroIsSettled(rest: Bytes)
    requires |rest| > MAX_BUFFERED_BYTES && NoBrace(rest + [0])
    ensures Settle([0]) == [0] && Settle(rest + [0]) == []
  {
  }

  lemma EmptyIsGarbage()
    ensures NoBrace([]) && FirstFrame([]) < 0
  {
  }

  // ---------------------------------------------------------------- an incomplete object

  /** With a single brace, at the front, the scan is closed or at depth one. */
  lemma {:induction false} OneBraceDepth(s: Scan, data: Bytes)
    requires s.Open? && s.depth == 1
    requires forall i | 0 <= i < |data| :: data[i] != OPEN_BRACE
    ensures Fold(s, data).Closed? || Fold(s, data).depth == 1
    decreases data
  {
    if data != [] {
      var t := ScanByte(s, data[0]);
      if t.Closed? {
        ClosedStays(data[1..]);
      } else {
        OneBraceDepth(t, data[1..]);
      }
    }
  }

  /** The shortest text that closes a scan at depth one. */
  function Closer(s: Scan): Bytes
    requires s.Open?
  {
    if !s.inString then [CLOSE_BRACE]
    else if !s.escaped then [QUOTE, CLOSE_BRACE]
    else [0x20, QUOTE, CLOSE_BRACE]
  }

  /** It closes the object with its last byte and not before. */
  lemma CloserCloses(kept: Bytes)
    requires kept != [] && kept[0] == OPEN_BRACE && Fold(START, kept).Open? && Fold(START, kept).depth == 1
    requires !Fold(START, kept).inString ==> !Fold(START, kept).escaped
    ensures var b := Closer(Fold(START, kept));
            ObjectEnd(kept + b) == Some(|kept| + |b|)
  {
    hide Fold, CloseAfter;
    var s := Fold(START, kept);
    var b := Closer(s);
    var n := |b| - 1;
    var init := kept + b[..n];
    assert kept + b == init + [CLOSE_BRACE] + [];
    assert init + [CLOSE_BRACE] == kept + b;
    FoldAppend(START, kept, b[..n]);
    FoldAppend(START, init, [CLOSE_BRACE]);
    FoldCloser(s);
    G.FoldOne(Fold(s, b[..n]), CLOSE_BRACE);
    ClosedByLastByte(init, CLOSE_BRACE, []);
  }

  lemma FoldCloser(s: Scan)
    requires s.Open? && s.depth == 1 && (!s.inString ==> !s.escaped)
    ensures var b := Closer(s); Fold(s, b[..|b| - 1]) == Open(1, false, false)
  {
    var b := Closer(s);
    var init := b[..|b| - 1];
    if s.inString && s.escaped {
      assert init == [0x20] + [QUOTE];
      FoldAppend(s, [0x20], [QUOTE]);
      G.FoldOne(s, 0x20);
      G.FoldOne(Open(1, true, false), QUOTE);
    } else if s.inString {
      assert init == [QUOTE];
      G.FoldOne(s, QUOTE);
    } else {
      assert init == [];
    }
  }

  /** Outside a string no byte is escaped. */
  lemma {:induction false} EscapedInsideOnly(s: Scan, data: Bytes)
    requires s.Open? && (!s.inString ==> !s.escaped)
    ensures var t := Fold(s, data); t.Open? && !t.inString ==> !t.escaped
    decreases data
  {
    if data != [] {
      var t := ScanByte(s, data[0]);
      if t.Closed? {
        ClosedStays(data[1..]);
      } else {
        EscapedInsideOnly(t, data[1..]);
      }
    }
  }

  /** A brace in the closing text is its last byte, so a longer object ends there too. */
  lemma LongerObjectEnds(rest: Bytes, s: Scan)
    requires s.Open? && rest != [] && rest[0] == OPEN_BRACE && ObjectEnd(rest).None?
    requires ObjectEnd(rest + Closer(s)).Some?
    ensures ObjectEnd(rest + Closer(s)).value == |rest + Closer(s)|
  {
    hide Fold, CloseAfter;
    var data := rest + Closer(s);
    var n := ObjectEnd(data).value;
    ObjectEndIsMinimal(data, n);
    var init := data[..n - 1];
    assert data[..n] == init + [data[n - 1]];
    FoldAppend(START, init, [data[n - 1]]);
    G.FoldOne(Fold(START, init), data[n - 1]);
    assert Fold(START, data[..n - 1]).Open?;
    assert data[n - 1] == CLOSE_BRACE by {
      OnlyBraceCloses(Fold(START, init), data[n - 1]);
    }
    if n <= |rest| {
      assert data[..n] == rest[..n];
      CloseAfterIsFirst(START, rest, n);
      assert false;
    }
  }

  lemma OnlyBraceCloses(s: Scan, b: byte)
    requires s.Open? && ScanByte(s, b).Closed?
    ensures b == CLOSE_BRACE
  {
  }

  /** A JSON decoder that accepts everything. */
  const ACCEPT_ALL: Unmarshal := (raw: Bytes) => Some(map[])

  /**
   * An incomplete object of which only the text after the last brace has been kept is told from the
   * whole: at once if the kept text has an object of its own, else by the text that closes it.
   */
  lemma ObjectIsTold(buffer: Bytes, a: Bytes) returns (b: Bytes)
    requires var rest := Parse(ACCEPT_ALL, buffer + a).rest;
             !Settled(rest) && rest[0] == OPEN_BRACE && ObjectEnd(rest).None?
    ensures !CutAgrees(ACCEPT_ALL, buffer, a, b)
  {
    hide NextStep, Parse, Fold, CloseAfter;
    var first := Parse(ACCEPT_ALL, buffer + a);
    var rest := first.rest;
    var kept := Settle(rest);
    KeptText(rest);
    if ObjectEnd(kept).Some? {
      b := [];
      CutUnfolds(ACCEPT_ALL, buffer, a, b);
      assert kept + b == kept && rest + b == rest;
      ObjectParse(ACCEPT_ALL, rest);
      ObjectParse(ACCEPT_ALL, kept);
      assert Parse(ACCEPT_ALL, kept).messages != [];
      assert |first.messages + Parse(ACCEPT_ALL, kept).messages| > |first.messages + []|;
    } else {
      KeptScan(kept);
      var s := Fold(START, kept);
      b := Closer(s);
      CloserCloses(kept);
      CutUnfolds(ACCEPT_ALL, buffer, a, b);
      ObjectParse(ACCEPT_ALL, kept + b);
      ObjectParse(ACCEPT_ALL, rest + b);
      ClosedApart(first.messages, kept, rest, s);
    }
  }

  /** The messages of the two cuts cannot be equal: their raw bytes differ in length. */
  lemma ClosedApart(before: seq<Message>, kept: Bytes, rest: Bytes, s: Scan)
    requires s.Open? && |kept| < |rest| && rest[0] == OPEN_BRACE && ObjectEnd(rest).None?
    requires kept != [] && kept[0] == OPEN_BRACE && ObjectEnd(kept + Closer(s)) == Some(|kept + Closer(s)|)
    ensures before + Parse(ACCEPT_ALL, kept + Closer(s)).messages !=
            before + Parse(ACCEPT_ALL, rest + Closer(s)).messages
  {
    hide NextStep, Parse, CloseAfter, ObjectEnd, Closer;
    var b := Closer(s);
    var n := |before|;
    var two, one := Parse(ACCEPT_ALL, kept + b), Parse(ACCEPT_ALL, rest + b);
    ObjectParse(ACCEPT_ALL, kept + b);
    ObjectParse(ACCEPT_ALL, rest + b);
    assert two.messages[0].raw == kept + b by {
      assert (kept + b)[..|kept + b|] == kept + b;
    }
    assert (before + two.messages)[n] == two.messages[0];
    if ObjectEnd(rest + b).Some? {
      LongerObjectEnds(rest, s);
      assert (rest + b)[..|rest + b|] == rest + b;
      assert (before + one.messages)[n].raw == rest + b;
    } else {
      assert |before + one.messages| == n;
    }
  }

  /** What is kept of an oversized object: a shorter text with a single brace, at its front. */
  lemma KeptText(rest: Bytes)
    requires !Settled(rest) && rest[0] == OPEN_BRACE
    ensures var kept := Settle(rest);
            0 < |kept| < |rest| && kept[0] == OPEN_BRACE &&
            forall i | 1 <= i < |kept| :: kept[i] != OPEN_BRACE
  {
    var start := LastBrace(rest);
    assert start >= 0;
    assert rest[0..] == rest;
    assert forall i | 0 <= i < |rest| - start :: rest[start..][i] == rest[start + i];
  }

  lemma KeptScan(kept: Bytes)
    requires kept != [] && kept[0] == OPEN_BRACE && ObjectEnd(kept).None?
    requires forall i | 1 <= i < |kept| :: kept[i] != OPEN_BRACE
    ensures var s := Fold(START, kept);
            s.Open? && s.depth == 1 && (!s.inString ==> !s.escaped)
  {
    hide CloseAfter, Fold;
    CloseAfterIsFirst(START, kept, |kept|);
    assert kept[..|kept|] == kept && kept == [OPEN_BRACE] + kept[1..];
    FoldAppend(START, [OPEN_BRACE], kept[1..]);
    G.FoldOne(START, OPEN_BRACE);
    OneBraceDepth(Open(1, false, false), kept[1..]);
    EscapedInsideOnly(Open(1, false, false), kept[1..]);
  }

  // ---------------------------------------------------------------- the exact condition

  /**
   * The cut between two pushes does not matter, whatever comes next, if and only if the decoder
   * discards nothing of what the first push leaves undecided. Any buffer, any bytes.
   */
  lemma CutMattersIffDiscarded(unmarshal: Unmarshal, buffer: Bytes, a: Bytes)
    ensures CutDoesNotMatter(buffer, a) <==> Settled(Parse(unmarshal, buffer + a).rest)
  {
    hide NextStep, Parse, Settle;
    var rest := Parse(unmarshal, buffer + a).rest;
    forall u: Unmarshal
      ensures Parse(u, buffer + a).rest == rest
    {
      RestIgnoresUnmarshal(u, unmarshal, buffer + a);
    }
    if Settled(rest) {
      forall u: Unmarshal, b: Bytes
        ensures CutAgrees(u, buffer, a, b)
      {
        CutUnfolds(u, buffer, a, b);
      }
    } else {
      UnsettledIsTold(buffer, a);
    }
  }

  lemma UnsettledIsTold(buffer: Bytes, a: Bytes)
    requires !Settled(Parse(ACCEPT_ALL, buffer + a).rest)
    ensures !CutDoesNotMatter(buffer, a)
  {
    hide NextStep, Parse, CutAgrees, FirstBrace, FirstFrame;
    var rest := Parse(ACCEPT_ALL, buffer + a).rest;
    ParseRest(ACCEPT_ALL, buffer + a);
    WaitingShape(ACCEPT_ALL, rest);
    if FirstBrace(rest) < 0 {
      GarbageIsTold(ACCEPT_ALL, buffer, a);
    } else {
      var b := ObjectIsTold(buffer, a);
    }
  }

  // ---------------------------------------------------------------- a concrete case

  const SPACES: Bytes := seq(MAX_BUFFERED_BYTES, _ => 0x20)

  /**
   * An opening brace, 2^20 spaces and another opening brace are too many undecided bytes: only the
   * second brace is kept. A closing brace then completes an object, which in one push it does not.
   */
  lemma OversizedObject(unmarshal: Unmarshal)
    ensures var a := [OPEN_BRACE] + SPACES + [OPEN_BRACE];
            Feed(unmarshal, [], [a + [CLOSE_BRACE]]).messages == [] &&
            Feed(unmarshal, [], [a, [CLOSE_BRACE]]).messages == Accepted(unmarshal, [OPEN_BRACE, CLOSE_BRACE])
  {
    hide NextStep, Parse, Fold, CloseAfter, Accepted;
    var a := [OPEN_BRACE] + SPACES + [OPEN_BRACE];
    var b: Bytes := [CLOSE_BRACE];
    var pair: Bytes := [OPEN_BRACE, CLOSE_BRACE];
    OversizedScan();
    assert [] + a == a && [] + (a + b) == a + b;
    ObjectParse(unmarshal, a);
    ObjectParse(unmarshal, a + b);
    assert LastBrace(a) == |a| - 1;
    assert a[|a| - 1..] == [OPEN_BRACE];
    assert Settle(a) == [OPEN_BRACE];
    assert [OPEN_BRACE] + b == pair;
    PairIsObject();
    ObjectParse(unmarshal, pair);
    assert pair[..2] == pair && pair[2..] == [];
    ParseUnfolds(unmarshal, []);
    NothingToParse(unmarshal);
    FeedOne(unmarshal, a + b);
    var first := Pushed(unmarshal, [], a);
    assert first == Parsed([], [OPEN_BRACE]);
    var second := Pushed(unmarshal, [OPEN_BRACE], b);
    assert second.messages == Accepted(unmarshal, pair) + [];
    assert [a, b][1..] == [b] && [b][1..] == [];
    assert Feed(unmarshal, [OPEN_BRACE], [b]) == Parsed(second.messages + [], second.rest);
    assert Feed(unmarshal, [], [a, b]) == Parsed([] + (second.messages + []), second.rest);
  }

  lemma FeedOne(unmarshal: Unmarshal, data: Bytes)
    ensures Feed(unmarshal, [], [data]) == Pushed(unmarshal, [], data)
  {
    hide Pushed;
    assert [data][1..] == [];
    var after := Pushed(unmarshal, [], data);
    assert after.messages + [] == after.messages;
  }

  lemma NothingToParse(unmarshal: Unmarshal)
    ensures NextStep(unmarshal, []).Wait?
  {
  }

  lemma PairIsObject()
    ensures ObjectEnd([OPEN_BRACE, CLOSE_BRACE]) == Some(2)
  {
    hide Fold, CloseAfter;
    G.FoldOne(START, OPEN_BRACE);
    FoldAppend(START, [OPEN_BRACE], [CLOSE_BRACE]);
    G.FoldOne(Open(1, false, false), CLOSE_BRACE);
    ClosedByLastByte([OPEN_BRACE], CLOSE_BRACE, []);
    assert [OPEN_BRACE] + [CLOSE_BRACE] + [] == [OPEN_BRACE, CLOSE_BRACE];
    assert [OPEN_BRACE] + [CLOSE_BRACE] == [OPEN_BRACE, CLOSE_BRACE];
  }

  lemma OversizedScan()
    ensures var a := [OPEN_BRACE] + SPACES + [OPEN_BRACE];
            ObjectEnd(a) == None && ObjectEnd(a + [CLOSE_BRACE]) == None
  {
    hide Fold, CloseAfter;
    var a := [OPEN_BRACE] + SPACES + [OPEN_BRACE];
    var whole := a + [CLOSE_BRACE];
    FoldAppend(START, [OPEN_BRACE] + SPACES, [OPEN_BRACE]);
    FoldAppend(START, [OPEN_BRACE], SPACES);
    FoldAppend(START, a, [CLOSE_BRACE]);
    G.FoldOne(START, OPEN_BRACE);
    G.InertIsNeutral(1, SPACES);
    G.FoldOne(G.Outside(1), OPEN_BRACE);
    G.FoldOne(G.Outside(2), CLOSE_BRACE);
    CloseAfterIsFirst(START, a, |a|);
    CloseAfterIsFirst(START, whole, |whole|);
    assert a[..|a|] == a && whole[..|whole|] == whole;
  }
}
