/** Printing records and decoding them back, and what can be said of arbitrary bytes. */
module DecoderStreams {
  import opened Bytes
  import opened Fields
  import opened JsonScanner
  import G = JsonGrammar
  import opened Crc
  import opened Decoder
  import opened DecoderProperties

  // ---------------------------------------------------------------- frames

  /** A frame with an intact length header; the checksum bytes need not be right. */
  datatype Frame = Frame(kind: byte, payload: Bytes, checkHigh: byte, checkLow: byte)

  function Header(kind: byte, size: nat): Bytes {
    [FRAME_MARK, FRAME_MARK, kind,
     (size / 0x100_0000) % 0x100, (size / 0x1_0000) % 0x100, (size / 0x100) % 0x100, size % 0x100]
  }

  /** Everything the checksum covers. */
  function Body(f: Frame): Bytes {
    Header(f.kind, |f.payload|) + f.payload
  }

  function FrameBytes(f: Frame): Bytes {
    Body(f) + [f.checkHigh, f.checkLow]
  }

  predicate Intact(f: Frame) {
    Checksum(Body(f)) == BigEndian16(f.checkHigh, f.checkLow)
  }

  /** The frame that carries a payload, checksum included. */
  function Sealed(kind: byte, payload: Bytes): (f: Frame)
    ensures f.kind == kind && f.payload == payload && Intact(f)
  {
    var sum := Checksum(Header(kind, |payload|) + payload);
    Frame(kind, payload, sum / 0x100, sum % 0x100)
  }

  // ---------------------------------------------------------------- records

  /** What a sender puts on the stream: frames and bare JSON objects. */
  datatype Item = Framed(frame: Frame) | Bare(object: G.Value)

  /** An item and the bytes before it that belong to nothing. */
  datatype Record = Record(noise: Bytes, item: Item)

  function ItemBytes(item: Item): Bytes {
    match item
    case Framed(f) => FrameBytes(f)
    case Bare(v) => G.Print(v)
  }

  function RecordBytes(r: Record): Bytes {
    r.noise + ItemBytes(r.item)
  }

  predicate ValidItem(item: Item) {
    match item
    case Framed(f) => |f.payload| <= MAX_FRAME_PAYLOAD_BYTES
    case Bare(v) => v.Object? && G.ValidValue(v)
  }

  /** Bytes that start no record: no brace and no two frame marks in a row among them. */
  predicate Quiet(noise: Bytes) {
    forall i | 0 <= i < |noise| :: noise[i] != OPEN_BRACE && !FrameAt(noise, i)
  }

  /**
   * Noise that does not run into the item after it. A mark right before a frame makes a frame mark
   * one byte early; it is harmless unless the frame has kind 0, which then reads as a short length.
   */
  predicate QuietBefore(noise: Bytes, item: Item) {
    Quiet(noise) && (item.Framed? && noise != [] && noise[|noise| - 1] == FRAME_MARK ==> item.frame.kind > 0)
  }

  predicate ValidRecord(r: Record) {
    QuietBefore(r.noise, r.item) && ValidItem(r.item) && |RecordBytes(r)| <= MAX_BUFFERED_BYTES
  }

  /** The message an item carries: a damaged or empty frame and rejected JSON carry none. */
  function Yield(unmarshal: Unmarshal, item: Item): seq<Message> {
    match item
    case Framed(f) => if Intact(f) && f.payload != [] then Accepted(unmarshal, f.payload) else []
    case Bare(v) => Accepted(unmarshal, G.Print(v))
  }

  predicate ValidRecords(records: seq<Record>) {
    forall i | 0 <= i < |records| :: ValidRecord(records[i])
  }

  function Stream(records: seq<Record>): Bytes {
    if records == [] then [] else RecordBytes(records[0]) + Stream(records[1..])
  }

  function Yields(unmarshal: Unmarshal, records: seq<Record>): seq<Message> {
    if records == [] then [] else Yield(unmarshal, records[0].item) + Yields(unmarshal, records[1..])
  }

  // ---------------------------------------------------------------- one record

  lemma HeaderLength(size: nat)
    requires size < 0x1_0000_0000
    ensures var h := Header(0, size); BigEndian(h[3], h[4], h[5], h[6]) == size
  {
    var a := size / 0x100;
    var b := a / 0x100;
    assert size / 0x1_0000 == b;
    assert size / 0x100_0000 == b / 0x100;
  }

  /** A whole frame at the front of the buffer is consumed in one step. */
  lemma FrameConsumed(unmarshal: Unmarshal, f: Frame, rest: Bytes)
    requires |f.payload| <= 65536
    ensures var size := |FrameBytes(f)|;
            NextStep(unmarshal, FrameBytes(f) + rest) == Advance(size, Yield(unmarshal, Framed(f)), FRAME_HEADER_BYTES)
  {
    hide Checksum, Accepted;
    var frame := FrameBytes(f);
    var n := |frame|;
    var buffer := frame + rest;
    HeaderLength(|f.payload|);
    assert PayloadLength(buffer) == |f.payload|;
    assert buffer[..n] == frame;
    assert frame[..n - 2] == Body(f) && frame[n - 2] == f.checkHigh && frame[n - 1] == f.checkLow;
    assert frame[FRAME_HEADER_BYTES..n - FRAME_CHECKSUM_BYTES] == f.payload;
    assert FrameMessages(unmarshal, frame) == Yield(unmarshal, Framed(f));
    assert FrameStep(unmarshal, buffer) == Advance(n, Yield(unmarshal, Framed(f)), FRAME_HEADER_BYTES);
  }

  /** The decoder waits for the rest of a frame, however little of it has arrived. */
  lemma FramePrefixWaits(unmarshal: Unmarshal, f: Frame, k: nat)
    requires |f.payload| <= 65536 && k < |FrameBytes(f)|
    ensures NextStep(unmarshal, FrameBytes(f)[..k]).Wait?
  {
    hide Checksum, FrameMessages;
    var part := FrameBytes(f)[..k];
    HeaderLength(|f.payload|);
    if k >= 2 {
      assert FrameAt(part, 0);
      assert k >= FRAME_HEADER_BYTES ==> PayloadLength(part) == |f.payload|;
      assert FrameStep(unmarshal, part).Wait?;
    } else {
      assert k == 1 ==> part == [FRAME_MARK];
      assert FirstBrace(part) < 0 && FirstFrame(part) < 0;
    }
  }

  lemma ItemConsumed(unmarshal: Unmarshal, item: Item, rest: Bytes)
    requires ValidItem(item)
    ensures var step := NextStep(unmarshal, ItemBytes(item) + rest);
            step.Advance? && step.size == |ItemBytes(item)| && step.messages == Yield(unmarshal, item)
  {
    hide Checksum, Accepted, G.Print, CloseAfter;
    match item
    case Framed(f) => FrameConsumed(unmarshal, f, rest);
    case Bare(v) =>
      var text := G.Print(v);
      G.PrintedObjectIsFound(v, rest);
      assert (text + rest)[..|text|] == text;
      assert FirstBrace(text + rest) == 0;
  }

  /** Every item announces itself with its first bytes. */
  lemma ItemStart(item: Item)
    requires ValidItem(item)
    ensures var text := ItemBytes(item);
            if item.Framed? then FrameAt(text, 0) else text != [] && text[0] == OPEN_BRACE
  {
    hide G.Print, CloseAfter;
    match item
    case Framed(f) =>
    case Bare(v) =>
      G.PrintedObjectIsFound(v, []);
      assert G.Print(v) + [] == G.Print(v);
  }

  /** Noise is skipped in one step, once a record has begun behind it. */
  lemma NoiseSkipped(unmarshal: Unmarshal, noise: Bytes, text: Bytes)
    requires Quiet(noise) && noise != [] && text != []
    requires if text[0] == FRAME_MARK then FrameAt(text, 0) && noise[|noise| - 1] != FRAME_MARK
             else text[0] == OPEN_BRACE
    ensures var tail := Parse(unmarshal, text);
            Parse(unmarshal, noise + text) == tail
  {
    hide Parse;
    var n := |noise|;
    var data := noise + text;
    assert forall i | 0 <= i < n :: data[i] == noise[i];
    assert data[n] == text[0];
    forall i | 0 <= i < n
      ensures !FrameAt(data, i)
    {
      assert !FrameAt(noise, i);
    }
    if text[0] == FRAME_MARK {
      assert data[n + 1] == text[1];
      assert FrameAt(data, n) && FirstFrame(data) == n;
    } else {
      assert FirstBrace(data) == n;
    }
    ParseUnfolds(unmarshal, data);
    assert NextStep(unmarshal, data) == Advance(n, [], 0);
    assert data[n..] == text;
    var tail := Parse(unmarshal, text);
    assert [] + tail.messages == tail.messages;
  }

  /** A mark before a frame of kind above 0 announces an impossible length, and is all that is skipped. */
  lemma StrayMarkSkipped(unmarshal: Unmarshal, f: Frame, rest: Bytes)
    requires f.kind > 0
    ensures Parse(unmarshal, [FRAME_MARK] + (FrameBytes(f) + rest)) == Parse(unmarshal, FrameBytes(f) + rest)
  {
    hide Parse;
    var frame := FrameBytes(f);
    var data := [FRAME_MARK] + (frame + rest);
    assert data[0] == 0x01 && data[1] == frame[0] == 0x01 && data[3] == frame[2] == f.kind;
    assert data[4] == frame[3] && data[5] == frame[4] && data[6] == frame[5];
    ImpossibleLengthCostsOneByte(unmarshal, data);
    assert data[1..] == frame + rest;
  }

  /** So a stray mark before a frame costs nothing but itself, whether the frame is intact or not. */
  lemma StrayMarkCostsNothing(unmarshal: Unmarshal, f: Frame)
    requires f.kind > 0 && |f.payload| <= 65536
    ensures Parse(unmarshal, [0x01] + FrameBytes(f)) == Parsed(Yield(unmarshal, Framed(f)), [])
  {
    hide NextStep, Parse, Yield;
    var frame := FrameBytes(f);
    assert frame + [] == frame;
    StrayMarkSkipped(unmarshal, f, []);
    FrameConsumed(unmarshal, f, []);
    ParseUnfolds(unmarshal, frame);
    assert frame[|frame|..] == [];
    EmptyWaits(unmarshal);
    ParseUnfolds(unmarshal, []);
    assert Yield(unmarshal, Framed(f)) + [] == Yield(unmarshal, Framed(f));
  }

  /**
   * Before a frame of kind 0 it is not harmless: the payload length, read one byte early, is its
   * 256th part, and the frame is cut off behind that many bytes.
   */
  lemma StrayMarkCutsKindZero(unmarshal: Unmarshal, f: Frame, rest: Bytes)
    requires f.kind == 0 && |f.payload| <= 65536
    ensures var step := NextStep(unmarshal, [0x01] + (FrameBytes(f) + rest));
            step.Advance? && step.size == 9 + |f.payload| / 256 < 1 + |FrameBytes(f)|
  {
    hide FrameBytes, FrameStep;
    var data := [FRAME_MARK] + (FrameBytes(f) + rest);
    var n := |f.payload|;
    HeaderBytes(f);
    var frame := FrameBytes(f);
    assert data[0] == 0x01 && data[1] == frame[0] && data[3] == frame[2];
    assert data[4] == frame[3] && data[5] == frame[4] && data[6] == frame[5];
    assert FrameAt(data, 0);
    HeaderLength(n);
    var h := Header(0, n);
    LengthOneEarly(h[3], h[4], h[5], h[6]);
    ShortFrameStep(unmarshal, data, n / 256);
  }

  lemma HeaderBytes(f: Frame)
    ensures |FrameBytes(f)| == |f.payload| + 9
    ensures FrameBytes(f)[..7] == Header(f.kind, |f.payload|)
  {
    assert FrameBytes(f)[..7] == Body(f)[..7] == Header(f.kind, |f.payload|);
  }

  lemma LengthOneEarly(b3: byte, b4: byte, b5: byte, b6: byte)
    ensures BigEndian(0, b3, b4, b5) == BigEndian(b3, b4, b5, b6) / 256
  {
    var high := BigEndian(0, b3, b4, b5);
    assert BigEndian(b3, b4, b5, b6) == 256 * high + b6;
  }

  lemma ShortFrameStep(unmarshal: Unmarshal, data: Bytes, n: nat)
    requires |data| >= n + 9 && n <= 65536 && PayloadLength(data) == n
    ensures FrameStep(unmarshal, data).Advance? && FrameStep(unmarshal, data).size == n + 9
  {
    hide Checksum, FrameMessages;
  }

  lemma FrameStart(f: Frame, rest: Bytes)
    ensures FrameAt(FrameBytes(f) + rest, 0)
  {
  }

  /** The noise before an item goes, and nothing else. */
  lemma NoiseBeforeItem(unmarshal: Unmarshal, noise: Bytes, item: Item, rest: Bytes)
    requires QuietBefore(noise, item) && ValidItem(item)
    ensures Parse(unmarshal, noise + (ItemBytes(item) + rest)) == Parse(unmarshal, ItemBytes(item) + rest)
  {
    hide NextStep, Parse, G.Print, FrameBytes;
    var text := ItemBytes(item) + rest;
    ItemStart(item);
    if noise == [] {
      assert noise + text == text;
    } else if item.Framed? && noise[|noise| - 1] == FRAME_MARK {
      var quiet := noise[..|noise| - 1];
      var marked := [FRAME_MARK] + text;
      assert noise == quiet + [FRAME_MARK];
      assert noise + text == quiet + marked;
      StrayMarkSkipped(unmarshal, item.frame, rest);
      FrameStart(item.frame, rest);
      if quiet == [] {
        assert quiet + marked == marked;
      } else {
        assert forall i | 0 <= i < |quiet| :: FrameAt(quiet, i) ==> FrameAt(noise, i);
        assert quiet[|quiet| - 1] == FRAME_MARK ==> FrameAt(noise, |quiet| - 1);
        NoiseSkipped(unmarshal, quiet, marked);
      }
    } else {
      NoiseSkipped(unmarshal, noise, text);
    }
  }

  /** A record is parsed whole, whatever follows it. */
  lemma RecordParsed(unmarshal: Unmarshal, r: Record, rest: Bytes)
    requires ValidRecord(r)
    ensures var tail := Parse(unmarshal, rest);
            Parse(unmarshal, RecordBytes(r) + rest) == Parsed(Yield(unmarshal, r.item) + tail.messages, tail.rest)
  {
    hide NextStep, Parse, Yield, ItemBytes;
    var item := ItemBytes(r.item);
    assert RecordBytes(r) + rest == r.noise + (item + rest);
    NoiseBeforeItem(unmarshal, r.noise, r.item, rest);
    ItemConsumed(unmarshal, r.item, rest);
    ParseUnfolds(unmarshal, item + rest);
    assert (item + rest)[|item|..] == rest;
  }

  // ---------------------------------------------------------------- round trip

  /** The decoder inverts the printing of records. */
  lemma {:induction false} ParseStream(unmarshal: Unmarshal, records: seq<Record>, rest: Bytes)
    requires ValidRecords(records)
    ensures var tail := Parse(unmarshal, rest);
            Parse(unmarshal, Stream(records) + rest) == Parsed(Yields(unmarshal, records) + tail.messages, tail.rest)
  {
    hide Parse, Yield, RecordBytes;
    var tail := Parse(unmarshal, rest);
    if records == [] {
      assert Stream(records) + rest == rest;
      assert [] + tail.messages == tail.messages;
    } else {
      var first := RecordBytes(records[0]);
      var others := Stream(records[1..]) + rest;
      assert Stream(records) + rest == first + others;
      RecordParsed(unmarshal, records[0], others);
      ParseStream(unmarshal, records[1..], rest);
      AppendAssociates(Yield(unmarshal, records[0].item), Yields(unmarshal, records[1..]), tail.messages);
    }
  }

  /** Bytes after the last record in which nothing starts, and which the decoder keeps. */
  predicate ValidTrailer(trailer: Bytes) {
    Quiet(trailer) && |trailer| <= MAX_BUFFERED_BYTES
  }

  lemma TrailerWaits(unmarshal: Unmarshal, trailer: Bytes)
    requires Quiet(trailer)
    ensures Parse(unmarshal, trailer) == Parsed([], trailer)
  {
    assert NextStep(unmarshal, trailer).Wait?;
  }

  /** Every prefix of the stream leaves at most one incomplete record undecided. */
  lemma {:induction false} StreamPrefixIsSmall(unmarshal: Unmarshal, records: seq<Record>, trailer: Bytes, k: nat)
    requires ValidRecords(records) && ValidTrailer(trailer) && k <= |Stream(records) + trailer|
    ensures |Parse(unmarshal, (Stream(records) + trailer)[..k]).rest| <= MAX_BUFFERED_BYTES
  {
    hide NextStep, Parse, Yield, RecordBytes;
    var part := (Stream(records) + trailer)[..k];
    RestIsSuffix(unmarshal, part);
    if records != [] {
      var first := RecordBytes(records[0]);
      if k >= |first| {
        var others := (Stream(records[1..]) + trailer)[..k - |first|];
        assert part == first + others;
        RecordParsed(unmarshal, records[0], others);
        StreamPrefixIsSmall(unmarshal, records[1..], trailer, k - |first|);
      } else {
        RecordIsShort(records[0]);
      }
    }
  }

  lemma RecordIsShort(r: Record)
    requires ValidRecord(r)
    ensures |RecordBytes(r)| <= MAX_BUFFERED_BYTES
  {
  }

  /** Wherever the stream is cut, nothing of what is undecided there is discarded. */
  lemma StreamSettled(
    unmarshal: Unmarshal, records: seq<Record>, trailer: Bytes, chunks: seq<Bytes>, rest: Bytes, k: nat)
    requires ValidRecords(records) && ValidTrailer(trailer) && k <= |chunks|
    requires Concat(chunks) + rest == Stream(records) + trailer
    ensures Settled(Parse(unmarshal, [] + Concat(chunks[..k])).rest)
  {
    hide NextStep, Parse, Stream, Concat;
    ConcatPrefix(chunks, k);
    var part := Concat(chunks[..k]);
    assert [] + part == part;
    assert part == (Stream(records) + trailer)[..|part|];
    StreamPrefixIsSmall(unmarshal, records, trailer, |part|);
  }

  /** So any chunking of a beginning of the stream decodes as that beginning at once. */
  lemma StreamFed(unmarshal: Unmarshal, records: seq<Record>, trailer: Bytes, chunks: seq<Bytes>, rest: Bytes)
    requires ValidRecords(records) && ValidTrailer(trailer)
    requires Concat(chunks) + rest == Stream(records) + trailer
    ensures Feed(unmarshal, [], chunks) == Parse(unmarshal, Concat(chunks))
  {
    hide NextStep, Parse, Stream, Concat, Feed, Settle;
    forall k: nat | k <= |chunks|
      ensures Settled(Parse(unmarshal, [] + Concat(chunks[..k])).rest)
    {
      StreamSettled(unmarshal, records, trailer, chunks, rest, k);
    }
    EmptyWaits(unmarshal);
    EmptySettled();
    ChunkingIndependence(unmarshal, [], chunks);
    assert chunks[..|chunks|] == chunks && [] + Concat(chunks) == Concat(chunks);
    assert Settled(Parse(unmarshal, [] + Concat(chunks[..|chunks|])).rest);
  }

  lemma EmptySettled()
    ensures Settled([])
  {
  }

  /** The whole stream, parsed at once. */
  lemma ParseWholeStream(unmarshal: Unmarshal, records: seq<Record>, trailer: Bytes)
    requires ValidRecords(records) && Quiet(trailer)
    ensures Parse(unmarshal, Stream(records) + trailer) == Parsed(Yields(unmarshal, records), trailer)
  {
    hide Parse, Yield, RecordBytes;
    ParseStream(unmarshal, records, trailer);
    TrailerWaits(unmarshal, trailer);
    assert Yields(unmarshal, records) + [] == Yields(unmarshal, records);
  }

  lemma EmptyWaits(unmarshal: Unmarshal)
    ensures NextStep(unmarshal, []).Wait?
  {
  }

  /**
   * Round trip of unbounded streams: whatever frames and bare objects are sent, with whatever noise
   * between them, and however the stream is cut into pushes, the decoder returns exactly the
   * messages of the items, in order, skips the damaged frames, and keeps only the noise after the
   * last item: nothing at all if the stream ends with an item.
   */
  lemma StreamRoundTrip(unmarshal: Unmarshal, records: seq<Record>, trailer: Bytes, chunks: seq<Bytes>)
    requires ValidRecords(records) && ValidTrailer(trailer)
    requires Concat(chunks) == Stream(records) + trailer
    ensures Feed(unmarshal, [], chunks) == Parsed(Yields(unmarshal, records), trailer)
  {
    hide NextStep, Parse, Yield, RecordBytes;
    assert Concat(chunks) + [] == Stream(records) + trailer;
    StreamFed(unmarshal, records, trailer, chunks, []);
    ParseWholeStream(unmarshal, records, trailer);
  }

  // ---------------------------------------------------------------- streams of good frames

  /** What a sender of kinds and payloads puts on the stream. */
  function SealedRecords(sent: seq<(byte, Bytes)>): seq<Record> {
    seq(|sent|, i requires 0 <= i < |sent| => Record([], Framed(Sealed(sent[i].0, sent[i].1))))
  }

  /** The payloads that are not empty and that the JSON decoder accepts. */
  function AcceptedPayloads(unmarshal: Unmarshal, sent: seq<(byte, Bytes)>): seq<Message> {
    if sent == [] then []
    else (if sent[0].1 == [] then [] else Accepted(unmarshal, sent[0].1)) + AcceptedPayloads(unmarshal, sent[1..])
  }

  lemma {:induction false} SealedYields(unmarshal: Unmarshal, sent: seq<(byte, Bytes)>)
    ensures Yields(unmarshal, SealedRecords(sent)) == AcceptedPayloads(unmarshal, sent)
    decreases |sent|
  {
    hide Checksum, Accepted;
    if sent != [] {
      assert SealedRecords(sent)[1..] == SealedRecords(sent[1..]);
      SealedYields(unmarshal, sent[1..]);
    }
  }

  /** Whatever is sent in frames comes back, in any chunking: the frames are built and read alike. */
  lemma SealedRoundTrip(unmarshal: Unmarshal, sent: seq<(byte, Bytes)>, chunks: seq<Bytes>)
    requires forall i | 0 <= i < |sent| :: |sent[i].1| <= MAX_FRAME_PAYLOAD_BYTES
    requires Concat(chunks) == Stream(SealedRecords(sent))
    ensures Feed(unmarshal, [], chunks) == Parsed(AcceptedPayloads(unmarshal, sent), [])
  {
    hide Feed, Checksum, Stream;
    SealedYields(unmarshal, sent);
    assert Stream(SealedRecords(sent)) + [] == Stream(SealedRecords(sent));
    StreamRoundTrip(unmarshal, SealedRecords(sent), [], chunks);
  }

  // ---------------------------------------------------------------- damaged frames

  /** A frame damaged within two adjacent bytes of what its checksum covers yields nothing. */
  lemma DamagedFrameYieldsNothing(unmarshal: Unmarshal, f: Frame, g: Frame, p: Bytes, x: Bytes, y: Bytes, s: Bytes)
    requires Intact(f) && g.checkHigh == f.checkHigh && g.checkLow == f.checkLow
    requires Body(f) == p + x + s && Body(g) == p + y + s
    requires |x| == 2 && |y| == 2 && x != y
    ensures Yield(unmarshal, Framed(g)) == []
  {
    hide Checksum, Accepted;
    if Intact(g) {
      AdjacentBytesDetected(p, x, y, s);
    }
  }

  /** The same for a burst of at most 16 bits, in transmission order, across three bytes. */
  lemma BurstDamagedFrameYieldsNothing(
    unmarshal: Unmarshal, f: Frame, g: Frame, p: Bytes, x: Bytes, y: Bytes, s: Bytes, k: nat)
    requires Intact(f) && g.checkHigh == f.checkHigh && g.checkLow == f.checkLow
    requires Body(f) == p + x + s && Body(g) == p + y + s
    requires IsBurst(x, y, k) && x != y
    ensures Yield(unmarshal, Framed(g)) == []
  {
    hide Checksum, Accepted, IsBurst;
    if Intact(g) {
      BurstDetected(p, x, y, s, k);
    }
  }

  /** In a stream, exactly the damaged frame is lost: the other items decode as if it were absent. */
  lemma DamagedFrameIsDropped(
    unmarshal: Unmarshal, before: seq<Record>, f: Frame, damaged: Record, after: seq<Record>, chunks: seq<Bytes>,
    p: Bytes, x: Bytes, y: Bytes, s: Bytes)
    requires ValidRecords(before) && ValidRecord(damaged) && ValidRecords(after) && damaged.item.Framed?
    requires var g := damaged.item.frame;
             Intact(f) && g.checkHigh == f.checkHigh && g.checkLow == f.checkLow &&
             Body(f) == p + x + s && Body(g) == p + y + s
    requires |x| == 2 && |y| == 2 && x != y
    requires Concat(chunks) == Stream(before + ([damaged] + after))
    ensures Feed(unmarshal, [], chunks) == Parsed(Yields(unmarshal, before) + Yields(unmarshal, after), [])
  {
    hide Yield, Feed, RecordBytes, Body, Intact;
    DamagedFrameYieldsNothing(unmarshal, f, damaged.item.frame, p, x, y, s);
    var others := [damaged] + after;
    assert others[1..] == after;
    StreamAppend(unmarshal, before, others);
    assert [] + Yields(unmarshal, after) == Yields(unmarshal, after);
    assert Concat(chunks) == Stream(before + others) + [];
    StreamRoundTrip(unmarshal, before + others, [], chunks);
  }

  /** Equally long strings that agree everywhere but at `i` and `i + 1`. */
  predicate DiffersOnlyAt(a: Bytes, b: Bytes, i: nat) {
    |a| == |b| && forall j | 0 <= j < |a| && j != i && j != i + 1 :: a[j] == b[j]
  }

  /** The last byte that the checksum covers. */
  function LastCovered(f: Frame): byte {
    Body(f)[|Body(f)| - 1]
  }

  /**
   * Exactly which damage goes unnoticed when it is confined to two adjacent bytes anywhere after an
   * intact length header, checksum bytes included: only damage to the last payload byte (the last
   * length byte, if there is no payload) and the first checksum byte, and only if the one difference
   * compensates the other.
   */
  lemma AdjacentDamageExact(f: Frame, g: Frame, i: nat)
    requires Intact(f) && |g.payload| == |f.payload| && i + 1 < |FrameBytes(f)|
    requires DiffersOnlyAt(FrameBytes(f), FrameBytes(g), i) && FrameBytes(f) != FrameBytes(g)
    ensures Intact(g) <==>
              i == |Body(f)| - 1 &&
              Compensates(Xor(LastCovered(f), LastCovered(g)), Xor(f.checkHigh, g.checkHigh))
  {
    hide Checksum, Xor, Compensates, Body;
    var n := |Body(f)|;
    BodySize(f);
    BodySize(g);
    FrameParts(f);
    FrameParts(g);
    var a, b := Body(f), Body(g);
    if i + 1 < n {
      var p, x, y, s := a[..i], a[i..i + 2], b[i..i + 2], a[i + 2..];
      assert a == p + x + s;
      assert b == p + y + s;
      if Intact(g) {
        AdjacentBytesDetected(p, x, y, s);
        assert false;
      }
    } else if i + 1 == n {
      var p := a[..n - 1];
      assert a == p + [a[n - 1]] && b == p + [b[n - 1]];
      BoundaryDamage(p, a[n - 1], b[n - 1], f.checkHigh, g.checkHigh, f.checkLow);
    } else {
      assert a == b;
    }
  }

  lemma BodySize(f: Frame)
    ensures |Body(f)| == FRAME_HEADER_BYTES + |f.payload|
  {
  }

  lemma FrameParts(f: Frame)
    ensures var n := |Body(f)|;
            FrameBytes(f)[..n] == Body(f) && |FrameBytes(f)| == n + 2 &&
            (forall j | 0 <= j < n :: FrameBytes(f)[j] == Body(f)[j]) &&
            FrameBytes(f)[n] == f.checkHigh && FrameBytes(f)[n + 1] == f.checkLow
  {
    hide Body;
  }

  lemma {:induction false} StreamAppend(unmarshal: Unmarshal, a: seq<Record>, b: seq<Record>)
    ensures Stream(a + b) == Stream(a) + Stream(b)
    ensures Yields(unmarshal, a + b) == Yields(unmarshal, a) + Yields(unmarshal, b)
  {
    hide RecordBytes, Yield;
    if a == [] {
      assert a + b == b;
      assert [] + Yields(unmarshal, b) == Yields(unmarshal, b);
    } else {
      assert (a + b)[1..] == a[1..] + b;
      StreamAppend(unmarshal, a[1..], b);
      AppendAssociates(Yield(unmarshal, a[0].item), Yields(unmarshal, a[1..]), Yields(unmarshal, b));
    }
  }
}
