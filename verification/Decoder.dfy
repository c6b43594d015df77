/**
 * The AlphaESS stream decoder of internal/alphaess/decoder.go.
 *
 * `Parse` says what a buffer decodes to and which bytes are still undecided; `Settle` is the
 * discarding of oversized garbage. The class does both in place, in the steps of the source.
 */
module Decoder {
  import opened Bytes
  import opened Fields
  import opened JsonScanner
  import opened Crc

  const MAX_BUFFERED_BYTES: nat := 0x10_0000
  const FRAME_HEADER_BYTES: nat := 7
  const FRAME_CHECKSUM_BYTES: nat := 2
  const MAX_FRAME_PAYLOAD_BYTES: nat := 0x1_0000
  const FRAME_MARK: byte := 0x01

  datatype Message = Message(raw: Bytes, fields: FieldMap)

  // ---------------------------------------------------------------- searching

  /** `bytes.IndexByte(data, '{')`. */
  function FirstBrace(data: Bytes): (i: int)
    ensures -1 <= i < |data|
    ensures i >= 0 ==> data[i] == OPEN_BRACE
    ensures forall j | 0 <= j < (if i < 0 then |data| else i) :: data[j] != OPEN_BRACE
  {
    if data == [] then -1
    else if data[0] == OPEN_BRACE then 0
    else
      var r := FirstBrace(data[1..]);
      assert forall j | 1 <= j < |data| :: data[j] == data[1..][j - 1];
      if r < 0 then -1 else r + 1
  }

  /** `bytes.LastIndexByte(data, '{')`. */
  function LastBrace(data: Bytes): (i: int)
    ensures -1 <= i < |data|
    ensures i >= 0 ==> data[i] == OPEN_BRACE
    ensures forall j | i < j < |data| :: data[j] != OPEN_BRACE
  {
    if data == [] then -1
    else if data[|data| - 1] == OPEN_BRACE then |data| - 1
    else LastBrace(data[..|data| - 1])
  }

  predicate FrameAt(data: Bytes, i: int) {
    0 <= i && i + 1 < |data| && data[i] == FRAME_MARK && data[i + 1] == FRAME_MARK
  }

  /** `bytes.Index(data, []byte{0x01, 0x01})`. */
  function FirstFrame(data: Bytes): (i: int)
    ensures -1 <= i < |data|
    ensures i >= 0 ==> FrameAt(data, i)
    ensures forall j | 0 <= j < (if i < 0 then |data| else i) :: !FrameAt(data, j)
  {
    if data == [] then -1
    else if FrameAt(data, 0) then 0
    else
      var r := FirstFrame(data[1..]);
      assert forall j | 1 <= j < |data| :: FrameAt(data, j) == FrameAt(data[1..], j - 1);
      if r < 0 then -1 else r + 1
  }

  // ---------------------------------------------------------------- one decision

  /**
   * What the decoder does with the front of its buffer: wait for more input, or drop `size` bytes
   * and emit the messages found in them. The raw bytes of an emitted message start at offset `at`.
   */
  datatype Decision = Wait | Advance(size: nat, messages: seq<Message>, at: nat)

  function BigEndian(b0: byte, b1: byte, b2: byte, b3: byte): nat {
    b0 * 0x100_0000 + b1 * 0x1_0000 + b2 * 0x100 + b3
  }

  function Accepted(unmarshal: Unmarshal, raw: Bytes): seq<Message> {
    match unmarshal(raw)
    case None => []
    case Some(fields) => [Message(raw, fields)]
  }

  predicate ChecksumMatches(frame: Bytes)
    requires |frame| >= FRAME_CHECKSUM_BYTES
  {
    var n := |frame|;
    Checksum(frame[..n - 2]) == BigEndian16(frame[n - 2], frame[n - 1])
  }

  /** The messages of a whole frame: none if it is damaged, empty or not accepted. */
  function FrameMessages(unmarshal: Unmarshal, frame: Bytes): seq<Message>
    requires |frame| >= FRAME_HEADER_BYTES + FRAME_CHECKSUM_BYTES
  {
    var payload := frame[FRAME_HEADER_BYTES..|frame| - FRAME_CHECKSUM_BYTES];
    if !ChecksumMatches(frame) || payload == [] then [] else Accepted(unmarshal, payload)
  }

  function PayloadLength(buffer: Bytes): nat
    requires |buffer| >= FRAME_HEADER_BYTES
  {
    BigEndian(buffer[3], buffer[4], buffer[5], buffer[6])
  }

  function FrameStep(unmarshal: Unmarshal, buffer: Bytes): Decision {
    if |buffer| < FRAME_HEADER_BYTES then Wait
    else
      var payload := PayloadLength(buffer);
      var size := FRAME_HEADER_BYTES + payload + FRAME_CHECKSUM_BYTES;
      if payload > MAX_FRAME_PAYLOAD_BYTES then Advance(1, [], 0)
      else if |buffer| < size then Wait
      else Advance(size, FrameMessages(unmarshal, buffer[..size]), FRAME_HEADER_BYTES)
  }

  /**
   * What becomes of a buffer that starts with a frame mark. Its header is seven bytes, the last four
   * the payload length, high byte first. A length above 65536 costs one byte and nothing else; an
   * incomplete header or frame costs nothing; a whole frame goes, its two checksum bytes included,
   * and its payload is a message if the checksum is right and it is neither empty nor rejected.
   */
  predicate FrameOutcome(unmarshal: Unmarshal, b: Bytes, messages: seq<Message>, complete: bool, rest: Bytes) {
    if |b| < 7 then !complete && messages == [] && rest == b
    else
      var n := (((b[3] as nat * 256) + b[4] as nat) * 256 + b[5] as nat) * 256 + b[6] as nat;
      if n > 65536 then complete && messages == [] && rest == b[1..]
      else if |b| < 7 + n + 2 then !complete && messages == [] && rest == b
      else
        complete && rest == b[n + 9..] &&
        var intact := IsModbusChecksum(b[n + 7] as nat * 256 + b[n + 8] as nat, b[..n + 7]);
        if intact && n > 0 && unmarshal(b[7..n + 7]).Some?
        then messages == [Message(b[7..n + 7], unmarshal(b[7..n + 7]).value)]
        else messages == []
  }

  lemma FrameStepMeans(unmarshal: Unmarshal, buffer: Bytes)
    ensures match FrameStep(unmarshal, buffer)
            case Wait => FrameOutcome(unmarshal, buffer, [], false, buffer)
            case Advance(size, messages, _) =>
              size <= |buffer| && FrameOutcome(unmarshal, buffer, messages, true, buffer[size..])
  {
    hide Checksum, IsModbusChecksum;
    if |buffer| >= 7 {
      var n: nat := PayloadLength(buffer);
      if n <= 65536 && |buffer| >= n + 9 {
        var frame := buffer[..n + 9];
        assert frame[..n + 7] == buffer[..n + 7] && frame[7..n + 7] == buffer[7..n + 7];
        ChecksumIsUnique(BigEndian16(frame[n + 7], frame[n + 8]), frame[..n + 7]);
      }
    }
  }

  function ObjectStep(unmarshal: Unmarshal, buffer: Bytes): Decision {
    match ObjectEnd(buffer)
    case None => Wait
    case Some(n) => Advance(n, Accepted(unmarshal, buffer[..n]), 0)
  }

  function NextStep(unmarshal: Unmarshal, buffer: Bytes): Decision {
    if FrameAt(buffer, 0) then FrameStep(unmarshal, buffer)
    else
      var frame, brace := FirstFrame(buffer), FirstBrace(buffer);
      if brace == 0 then ObjectStep(unmarshal, buffer)
      else if frame < 0 && brace < 0 then Wait
      else if frame >= 0 && (brace < 0 || frame < brace) then Advance(frame, [], 0)
      else Advance(brace, [], 0)
  }

  lemma StepShrinks(unmarshal: Unmarshal, buffer: Bytes)
    ensures var step := NextStep(unmarshal, buffer);
            step.Advance? ==> 0 < step.size <= |buffer|
  {
  }

  // ---------------------------------------------------------------- a whole push

  datatype Parsed = Parsed(messages: seq<Message>, rest: Bytes)

  /** Decide as long as possible; `rest` is the part on which the decoder waits. */
  function Parse(unmarshal: Unmarshal, buffer: Bytes): Parsed
    decreases |buffer|
  {
    StepShrinks(unmarshal, buffer);
    match NextStep(unmarshal, buffer)
    case Wait => Parsed([], buffer)
    case Advance(size, messages, _) =>
      var tail := Parse(unmarshal, buffer[size..]);
      Parsed(messages + tail.messages, tail.rest)
  }

  /** One decision of `Parse`. */
  lemma ParseUnfolds(unmarshal: Unmarshal, buffer: Bytes)
    ensures var step := NextStep(unmarshal, buffer);
            if step.Wait? then Parse(unmarshal, buffer) == Parsed([], buffer)
            else
              0 < step.size <= |buffer| &&
              var tail := Parse(unmarshal, buffer[step.size..]);
              Parse(unmarshal, buffer) == Parsed(step.messages + tail.messages, tail.rest)
  {
    StepShrinks(unmarshal, buffer);
  }

  /** A decision about a buffer that starts with a record. */
  lemma StepKinds(unmarshal: Unmarshal, buffer: Bytes)
    ensures FrameAt(buffer, 0) ==> NextStep(unmarshal, buffer) == FrameStep(unmarshal, buffer)
    ensures !FrameAt(buffer, 0) && FirstBrace(buffer) == 0 ==>
              NextStep(unmarshal, buffer) == ObjectStep(unmarshal, buffer)
  {
  }

  /** `discardOversizedGarbage`: beyond the limit, keep only what follows the last brace. */
  function Settle(buffer: Bytes): Bytes {
    if |buffer| <= MAX_BUFFERED_BYTES then buffer
    else
      var start := LastBrace(buffer);
      if start >= 0 then buffer[start..] else []
  }

  /** What one call of `Push` returns and leaves in the buffer. */
  function Pushed(unmarshal: Unmarshal, buffer: Bytes, data: Bytes): Parsed {
    var parsed := Parse(unmarshal, buffer + data);
    Parsed(parsed.messages, Settle(parsed.rest))
  }

  /** `messages` have been decoded, and the rest of the result is what `buffer` decodes to. */
  predicate Remains(unmarshal: Unmarshal, whole: Parsed, messages: seq<Message>, buffer: Bytes) {
    var rest := Parse(unmarshal, buffer);
    whole == Parsed(messages + rest.messages, rest.rest)
  }

  lemma RemainsAtStart(unmarshal: Unmarshal, buffer: Bytes)
    ensures Remains(unmarshal, Parse(unmarshal, buffer), [], buffer)
  {
    hide Parse;
    var whole := Parse(unmarshal, buffer);
    assert [] + whole.messages == whole.messages;
  }

  lemma RemainsAfterStep(unmarshal: Unmarshal, whole: Parsed, messages: seq<Message>, buffer: Bytes)
    requires Remains(unmarshal, whole, messages, buffer)
    ensures var step := NextStep(unmarshal, buffer);
            if step.Wait? then whole == Parsed(messages, buffer)
            else 0 < step.size <= |buffer| &&
                 Remains(unmarshal, whole, messages + step.messages, buffer[step.size..])
  {
    hide NextStep, Parse;
    ParseUnfolds(unmarshal, buffer);
    var step := NextStep(unmarshal, buffer);
    if step.Wait? {
      assert messages + [] == messages;
    } else {
      var tail := Parse(unmarshal, buffer[step.size..]);
      assert messages + (step.messages + tail.messages) == messages + step.messages + tail.messages;
    }
  }

  class Decoder {
    const unmarshal: Unmarshal
    var buffer: Bytes

    constructor (unmarshal: Unmarshal)
      ensures buffer == [] && this.unmarshal == unmarshal
    {
      this.unmarshal := unmarshal;
      buffer := [];
    }

    method Push(data: Bytes) returns (messages: seq<Message>)
      modifies this
      ensures Parsed(messages, buffer) == Pushed(unmarshal, old(buffer), data)
    {
      hide Parse, NextStep, FrameStep, Settle, FirstBrace, FirstFrame, CloseAfter, Remains;
      buffer := buffer + data;
      messages := [];
      ghost var whole := Parse(unmarshal, buffer);
      RemainsAtStart(unmarshal, buffer);
      while true
        invariant Remains(unmarshal, whole, messages, buffer)
        decreases |buffer|
      {
        RemainsAfterStep(unmarshal, whole, messages, buffer);
        StepKinds(unmarshal, buffer);
        if |buffer| >= 2 && buffer[0] == FRAME_MARK && buffer[1] == FRAME_MARK {
          var frameMessages, complete := ConsumeFrame();
          messages := messages + frameMessages;
          if !complete {
            return;
          }
          continue;
        }

        var moved := AlignToNextRecordStart();
        assert messages + [] == messages;
        if moved {
          continue;
        }
        if |buffer| == 0 {
          return;
        }
        if buffer[0] != OPEN_BRACE {
          DiscardOversizedGarbage();
          return;
        }
        var end, complete := FindJsonObjectEnd(buffer);
        if !complete {
          DiscardOversizedGarbage();
          return;
        }
        var raw := buffer[..end];
        buffer := buffer[end..];
        match unmarshal(raw)
        case None =>
        case Some(fields) => messages := messages + [Message(raw, fields)];
      }
    }

    method ConsumeFrame() returns (messages: seq<Message>, complete: bool)
      requires FrameAt(buffer, 0)
      modifies this
      ensures var step := FrameStep(unmarshal, old(buffer));
              complete == step.Advance? &&
              messages == (if complete then step.messages else []) &&
              buffer == (if complete then old(buffer)[step.size..] else old(buffer)) &&
              (!complete ==> Settle(buffer) == buffer)
      ensures FrameOutcome(unmarshal, old(buffer), messages, complete, buffer)
    {
      hide Checksum;
      FrameStepMeans(unmarshal, buffer);
      if |buffer| < FRAME_HEADER_BYTES {
        return [], false;
      }
      var payloadLen := BigEndian(buffer[3], buffer[4], buffer[5], buffer[6]);
      if payloadLen < 0 || payloadLen > MAX_FRAME_PAYLOAD_BYTES {
        buffer := buffer[1..];
        return [], true;
      }
      var frameLen := FRAME_HEADER_BYTES + payloadLen + FRAME_CHECKSUM_BYTES;
      if |buffer| < frameLen {
        return [], false;
      }
      var frame := buffer[..frameLen];
      buffer := buffer[frameLen..];

      var expected := BigEndian16(frame[frameLen - 2], frame[frameLen - 1]);
      var actual := Crc16Modbus(frame[..frameLen - 2]);
      if actual != expected {
        return [], true;
      }
      var payload := frame[FRAME_HEADER_BYTES..FRAME_HEADER_BYTES + payloadLen];
      if |payload| == 0 {
        return [], true;
      }
      match unmarshal(payload)
      case None => return [], true;
      case Some(fields) => return [Message(payload, fields)], true;
    }

    method AlignToNextRecordStart() returns (moved: bool)
      requires !FrameAt(buffer, 0)
      modifies this
      ensures var step := NextStep(unmarshal, old(buffer));
              moved ==> step.Advance? && step.messages == [] && buffer == old(buffer)[step.size..]
      ensures !moved && FirstBrace(old(buffer)) == 0 ==> buffer == old(buffer)
      ensures !moved && FirstBrace(old(buffer)) != 0 ==>
                NextStep(unmarshal, old(buffer)).Wait? && buffer == Settle(old(buffer)) &&
                Settle(buffer) == buffer && FirstBrace(buffer) < 0
    {
      var frameStart := FirstFrame(buffer);
      var jsonStart := FirstBrace(buffer);
      if frameStart == 0 || jsonStart == 0 {
        return false;
      } else if frameStart < 0 && jsonStart < 0 {
        DiscardOversizedGarbage();
        return false;
      } else if frameStart >= 0 && (jsonStart < 0 || frameStart < jsonStart) {
        buffer := buffer[frameStart..];
        return true;
      } else if jsonStart > 0 {
        buffer := buffer[jsonStart..];
        return true;
      } else {
        return false;
      }
    }

    method DiscardOversizedGarbage()
      modifies this
      ensures buffer == Settle(old(buffer))
    {
      if |buffer| <= MAX_BUFFERED_BYTES {
        return;
      }
      var start := LastBrace(buffer);
      if start >= 0 {
        buffer := buffer[start..];
        return;
      }
      buffer := [];
    }
  }
}
