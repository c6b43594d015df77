/**
 * The MQTT 3.1.1 packets that internal/mqtt/client.go writes, and a decoder for them that follows
 * the standard: remaining length (section 2.2.3), strings (section 1.5.3), CONNECT (section 3.1),
 * PUBLISH (section 3.3) and DISCONNECT (section 3.14). Strings are byte strings.
 */
module MqttCodec {
  import opened Bytes

  datatype Will = Will(topic: Bytes, payload: Bytes, retained: bool)

  datatype Packet =
    | Connect(clientID: Bytes, username: Bytes, password: Bytes, keepAlive: int, will: Will)
    | Publish(topic: Bytes, payload: Bytes, retained: bool)
    | Disconnect

  const NO_WILL: Will := Will([], [], false)
  const MAX_STRING: nat := 65535
  const MAX_REMAINING: nat := 268435455
  const MAX_LENGTH_BYTES: nat := 4
  const PROTOCOL: Bytes := [0x4d, 0x51, 0x54, 0x54]

  // ---------------------------------------------------------------- remaining length

  function LengthBytes(n: nat): (r: Bytes)
    ensures r != []
  {
    if n < 128 then [n] else [n % 128 + 128] + LengthBytes(n / 128)
  }

  /** The loop of the source; `digit |= 0x80` sets the one bit that a digit below 128 does not have. */
  method EncodeRemainingLength(length: nat) returns (encoded: Bytes)
    ensures encoded == LengthBytes(length)
  {
    var left := length;
    encoded := [];
    while true
      invariant left >= 0
      invariant encoded + LengthBytes(left) == LengthBytes(length)
      decreases left
    {
      ghost var before, tail := encoded, LengthBytes(left);
      var digit: byte := left % 128;
      left := left / 128;
      if left > 0 {
        digit := digit + 128;
      }
      encoded := encoded + [digit];
      assert tail == [digit] + (if left == 0 then [] else LengthBytes(left));
      assert before + tail == encoded + (if left == 0 then [] else LengthBytes(left));
      if left == 0 {
        break;
      }
    }
  }

  datatype LengthRead = LengthRead(value: nat, size: nat)

  /** Read a base-128 number of at most `room` bytes. */
  function ReadLength(data: Bytes, room: nat): (r: Option<LengthRead>)
    ensures r.Some? ==> 0 < r.value.size <= |data| && r.value.size <= room
    decreases room
  {
    if data == [] || room == 0 then None
    else if data[0] < 128 then Some(LengthRead(data[0], 1))
    else match ReadLength(data[1..], room - 1)
         case None => None
         case Some(rest) => Some(LengthRead(data[0] - 128 + 128 * rest.value, rest.size + 1))
  }

  function Pow128(k: nat): (p: nat)
    ensures p > 0
  {
    if k == 0 then 1 else 128 * Pow128(k - 1)
  }

  /** Reading inverts writing, whatever follows, if there is room for the bytes; otherwise it fails. */
  lemma {:induction false} LengthRoundTrip(n: nat, room: nat, rest: Bytes)
    ensures ReadLength(LengthBytes(n) + rest, room) ==
            if |LengthBytes(n)| <= room then Some(LengthRead(n, |LengthBytes(n)|)) else None
    decreases room
  {
    if n >= 128 && room > 0 {
      assert (LengthBytes(n) + rest)[1..] == LengthBytes(n / 128) + rest;
      LengthRoundTrip(n / 128, room - 1, rest);
    }
  }

  /** `k` bytes are used exactly for the lengths below 128^k and not below 128^(k-1); one for zero. */
  lemma {:induction false} LengthSize(n: nat, k: nat)
    requires k > 0
    ensures |LengthBytes(n)| == k <==> n < Pow128(k) && (k == 1 || n >= Pow128(k - 1))
    decreases n
  {
    assert Pow128(1) == 128;
    if n >= 128 {
      var p := Pow128(k - 1);
      if k > 1 {
        LengthSize(n / 128, k - 1);
        assert n < 128 * p <==> n / 128 < p;
        if k > 2 {
          assert n >= 128 * Pow128(k - 2) <==> n / 128 >= Pow128(k - 2);
        }
      }
    } else if k > 1 {
      PowGrows(k - 1);
    }
  }

  lemma {:induction false} PowGrows(k: nat)
    requires k > 0
    ensures Pow128(k) >= 128
  {
    if k > 1 {
      PowGrows(k - 1);
    }
  }

  /** No encoding of a number is shorter than the one written, and none of the same size differs from it. */
  lemma {:induction false} LengthMinimal(data: Bytes, room: nat)
    requires ReadLength(data, room).Some?
    ensures var read := ReadLength(data, room).value;
            |LengthBytes(read.value)| <= read.size &&
            (|LengthBytes(read.value)| == read.size ==> LengthBytes(read.value) == data[..read.size])
    decreases room
  {
    if data[0] >= 128 {
      var rest := ReadLength(data[1..], room - 1).value;
      var n := data[0] - 128 + 128 * rest.value;
      LengthMinimal(data[1..], room - 1);
      assert n / 128 == rest.value && n % 128 == data[0] - 128;
      if n >= 128 {
        assert data[..rest.size + 1] == [data[0]] + data[1..][..rest.size];
      }
    }
  }

  lemma FourByteLengths(n: nat)
    ensures |LengthBytes(n)| <= MAX_LENGTH_BYTES <==> n <= MAX_REMAINING
  {
    LengthSize(n, 1);
    LengthSize(n, 2);
    LengthSize(n, 3);
    LengthSize(n, 4);
    assert Pow128(2) == 128 * 128 && Pow128(3) == 128 * 128 * 128 && Pow128(4) == MAX_REMAINING + 1;
  }

  // ---------------------------------------------------------------- strings

  /** `byte(n>>8), byte(n)`: the low 16 bits of a number, high byte first. */
  function Sixteen(n: int): Bytes {
    [(n / 0x100) % 0x100, n % 0x100]
  }

  /** `appendUTF8`: two length bytes, truncated to 16 bits, and the string. */
  function Prefixed(value: Bytes): Bytes {
    Sixteen(|value|) + value
  }

  method AppendUTF8(dst: Bytes, value: Bytes) returns (out: Bytes)
    ensures out == dst + Prefixed(value)
  {
    out := dst + Sixteen(|value|);
    out := out + value;
  }

  datatype StringRead = StringRead(value: Bytes, rest: Bytes)

  function ReadString(data: Bytes): Option<StringRead> {
    if |data| < 2 then None
    else
      var n := BigEndian16(data[0], data[1]);
      if |data| < 2 + n then None else Some(StringRead(data[2..2 + n], data[2 + n..]))
  }

  /** A string survives exactly if its length fits the two bytes. */
  lemma StringRoundTripIff(value: Bytes, rest: Bytes)
    ensures ReadString(Prefixed(value) + rest) == Some(StringRead(value, rest)) <==> |value| <= 65535
  {
    var data := Prefixed(value) + rest;
    var n := BigEndian16(data[0], data[1]);
    assert n == |value| % 0x1_0000;
    if |value| <= MAX_STRING {
      StringFound(value, rest);
    }
  }

  lemma StringFound(value: Bytes, rest: Bytes)
    requires |value| <= MAX_STRING
    ensures ReadString(Prefixed(value) + rest) == Some(StringRead(value, rest))
  {
    var data := Prefixed(value) + rest;
    assert BigEndian16(data[0], data[1]) == |value|;
    assert data[2..2 + |value|] == value && data[2 + |value|..] == rest;
  }

  // ---------------------------------------------------------------- packets

  /** CONNECT flags: clean session, will, will retained, user name, password. */
  function FlagsByte(hasWill: bool, retained: bool, hasUsername: bool, hasPassword: bool): byte {
    0x02
    + (if hasWill then 0x04 + (if retained then 0x20 else 0) else 0)
    + (if hasUsername then 0x80 else 0)
    + (if hasPassword then 0x40 else 0)
  }

  function Flags(p: Packet): byte
    requires p.Connect?
  {
    FlagsByte(p.will.topic != [], p.will.retained, p.username != [], p.password != [])
  }

  function Optional(present: bool, value: Bytes): Bytes {
    if present then Prefixed(value) else []
  }

  function ConnectBody(p: Packet): Bytes
    requires p.Connect?
  {
    Prefixed(PROTOCOL) + [0x04] + [Flags(p)] + Sixteen(p.keepAlive)
    + Prefixed(p.clientID)
    + (Optional(p.will.topic != [], p.will.topic) + Optional(p.will.topic != [], p.will.payload)
       + Optional(p.username != [], p.username) + Optional(p.password != [], p.password))
  }

  function Body(p: Packet): Bytes {
    match p
    case Connect(_, _, _, _, _) => ConnectBody(p)
    case Publish(topic, payload, _) => Prefixed(topic) + payload
    case Disconnect => []
  }

  function FirstByte(p: Packet): byte {
    match p
    case Connect(_, _, _, _, _) => 0x10
    case Publish(_, _, retained) => if retained then 0x31 else 0x30
    case Disconnect => 0xe0
  }

  function Encode(p: Packet): Bytes {
    [FirstByte(p)] + LengthBytes(|Body(p)|) + Body(p)
  }

  method ConnectPacket(clientID: Bytes, username: Bytes, password: Bytes, keepAliveSeconds: int, will: Will)
    returns (packet: Bytes)
    requires 0 <= keepAliveSeconds < 0x1_0000
    ensures packet == Encode(Connect(clientID, username, password, keepAliveSeconds, will))
  {
    hide ConnectBody, LengthBytes;
    ghost var p := Connect(clientID, username, password, keepAliveSeconds, will);
    var body := ConnectVariableAndPayload(clientID, username, password, keepAliveSeconds, will);
    packet := [0x10];
    var length := EncodeRemainingLength(|body|);
    packet := packet + length;
    packet := packet + body;
  }

  method ConnectVariableAndPayload(
    clientID: Bytes, username: Bytes, password: Bytes, keepAliveSeconds: int, will: Will)
    returns (body: Bytes)
    requires 0 <= keepAliveSeconds < 0x1_0000
    ensures body == ConnectBody(Connect(clientID, username, password, keepAliveSeconds, will))
  {
    hide Prefixed, Sixteen, FlagsByte, Optional;
    body := AppendUTF8([], PROTOCOL);
    body := body + [0x04];
    var hasWill := will.topic != [];
    var flags := ConnectFlags(hasWill, will.retained, username != [], password != []);
    body := body + [flags];
    body := body + Sixteen(keepAliveSeconds);
    body := AppendUTF8(body, clientID);
    body := AppendOptionals(body, hasWill, will, username, password);
  }

  /** Will, user name and password, each only if there is one. */
  method AppendOptionals(dst: Bytes, hasWill: bool, will: Will, username: Bytes, password: Bytes) returns (out: Bytes)
    ensures out == dst + (Optional(hasWill, will.topic) + Optional(hasWill, will.payload)
                          + Optional(username != [], username) + Optional(password != [], password))
  {
    hide Prefixed, Optional;
    out := dst;
    OptionalIs(hasWill, will.topic);
    OptionalIs(hasWill, will.payload);
    OptionalIs(username != [], username);
    OptionalIs(password != [], password);
    if hasWill {
      out := AppendUTF8(out, will.topic);
      out := AppendUTF8(out, will.payload);
    }
    ghost var wills := Optional(hasWill, will.topic) + Optional(hasWill, will.payload);
    assert out == dst + wills;
    if username != [] {
      out := AppendUTF8(out, username);
    }
    ghost var users := wills + Optional(username != [], username);
    assert out == dst + users;
    if password != [] {
      out := AppendUTF8(out, password);
    }
  }

  lemma OptionalIs(present: bool, value: Bytes)
    ensures Optional(present, value) == if present then Prefixed(value) else []
  {
  }

  /** The flags are set one bit at a time, none of them twice, so `|=` is an addition. */
  method ConnectFlags(hasWill: bool, retained: bool, hasUsername: bool, hasPassword: bool) returns (flags: byte)
    ensures flags == FlagsByte(hasWill, retained, hasUsername, hasPassword)
  {
    flags := 0x02;
    if hasWill {
      flags := flags + 0x04;
      if retained {
        flags := flags + 0x20;
      }
    }
    if hasUsername {
      flags := flags + 0x80;
    }
    if hasPassword {
      flags := flags + 0x40;
    }
  }

  method PublishPacket(topic: Bytes, payload: Bytes, retained: bool) returns (packet: Bytes)
    ensures packet == Encode(Publish(topic, payload, retained))
  {
    hide Prefixed, LengthBytes;
    var header: byte := 0x30;
    if retained {
      header := header + 0x01;
    }
    var body := AppendUTF8([], topic);
    body := body + payload;
    assert body == Body(Publish(topic, payload, retained));

    packet := [header];
    var length := EncodeRemainingLength(|body|);
    packet := packet + length;
    packet := packet + body;
  }

  // ---------------------------------------------------------------- decoding

  predicate Bit(flags: byte, weight: nat)
    requires weight > 0
  {
    (flags / weight) % 2 == 1
  }

  /** A string that is there only if its flag is set. */
  function ReadOptional(present: bool, data: Bytes): Option<StringRead> {
    if present then ReadString(data) else Some(StringRead([], data))
  }

  /**
   * The flags of the CONNECT packets that `Packet` can represent (section 3.1.2): a clean session,
   * the reserved bit 0, will messages at most once, and no retained will without a will.
   */
  predicate CleanSession(flags: byte) {
    Bit(flags, 0x02) && !Bit(flags, 0x01) && !Bit(flags, 0x08) && !Bit(flags, 0x10) &&
    (Bit(flags, 0x20) ==> Bit(flags, 0x04))
  }

  function DecodeConnect(body: Bytes): Option<Packet> {
    match ReadString(body)
    case None => None
    case Some(protocol) =>
      var head := protocol.rest;
      if protocol.value != [0x4d, 0x51, 0x54, 0x54] || |head| < 4 || head[0] != 0x04 then None
      else if !CleanSession(head[1]) then None
      else DecodeConnectFields(head[1], BigEndian16(head[2], head[3]), head[4..])
  }

  function DecodeConnectFields(flags: byte, keepAlive: nat, data: Bytes): Option<Packet> {
    var hasWill := Bit(flags, 0x04);
    match ReadString(data)
    case None => None
    case Some(clientID) =>
      match ReadOptional(hasWill, clientID.rest)
      case None => None
      case Some(topic) =>
        match ReadOptional(hasWill, topic.rest)
        case None => None
        case Some(payload) =>
          match ReadOptional(Bit(flags, 0x80), payload.rest)
          case None => None
          case Some(username) =>
            match ReadOptional(Bit(flags, 0x40), username.rest)
            case None => None
            case Some(password) =>
              if password.rest != [] then None
              else Some(Connect(clientID.value, username.value, password.value, keepAlive,
                                Will(topic.value, payload.value, Bit(flags, 0x20))))
  }

  function DecodeBody(first: byte, body: Bytes): Option<Packet> {
    if first == 0x10 then DecodeConnect(body)
    else if first == 0x30 || first == 0x31 then
      match ReadString(body)
      case None => None
      case Some(topic) => Some(Publish(topic.value, topic.rest, first == 0x31))
    else if first == 0xe0 && body == [] then Some(Disconnect)
    else None
  }

  datatype PacketRead = PacketRead(packet: Packet, size: nat)

  /** The packet at the front of `data`, if it is all there and well formed. */
  function DecodePacket(data: Bytes): (r: Option<PacketRead>)
    ensures r.Some? ==> 0 < r.value.size <= |data|
  {
    if data == [] then None
    else match ReadLength(data[1..], 4)
         case None => None
         case Some(length) =>
           var start := 1 + length.size;
           if |data| < start + length.value then None
           else match DecodeBody(data[0], data[start..start + length.value])
                case None => None
                case Some(packet) => Some(PacketRead(packet, start + length.value))
  }

  datatype StreamRead = StreamRead(packets: seq<Packet>, rest: Bytes)

  /** What a broker makes of the bytes it has: the packets so far, and an incomplete rest. */
  function DecodeStream(data: Bytes): StreamRead
    decreases |data|
  {
    match DecodePacket(data)
    case None => StreamRead([], data)
    case Some(first) =>
      var others := DecodeStream(data[first.size..]);
      StreamRead([first.packet] + others.packets, others.rest)
  }

  // ---------------------------------------------------------------- round trip

  /** A will without a topic is no will, so it is not on the wire. */
  function Normal(p: Packet): Packet {
    if p.Connect? && p.will.topic == [] then p.(will := NO_WILL) else p
  }

  predicate ValidStrings(p: Packet) {
    match p
    case Connect(clientID, username, password, keepAlive, will) =>
      |clientID| <= 65535 && |username| <= 65535 && |password| <= 65535 &&
      |will.topic| <= 65535 && (will.topic != [] ==> |will.payload| <= 65535) &&
      0 <= keepAlive < 0x1_0000
    case Publish(topic, _, _) => |topic| <= 65535
    case Disconnect => true
  }

  predicate ValidPacket(p: Packet) {
    ValidStrings(p) && |Body(p)| <= 268435455
  }

  lemma FlagBits(p: Packet)
    requires p.Connect?
    ensures Bit(Flags(p), 0x04) <==> p.will.topic != []
    ensures Bit(Flags(p), 0x20) <==> p.will.topic != [] && p.will.retained
    ensures Bit(Flags(p), 0x80) <==> p.username != []
    ensures Bit(Flags(p), 0x40) <==> p.password != []
    ensures CleanSession(Flags(p))
  {
  }

  lemma OptionalFound(present: bool, value: Bytes, rest: Bytes)
    requires present ==> |value| <= MAX_STRING
    ensures ReadOptional(present, Optional(present, value) + rest) ==
            Some(StringRead(if present then value else [], rest))
  {
    if present {
      StringFound(value, rest);
    } else {
      assert Optional(present, value) + rest == rest;
    }
  }

  lemma ConnectFieldsFound(p: Packet)
    requires p.Connect? && ValidStrings(p)
    ensures var hasWill := p.will.topic != [];
            DecodeConnectFields(Flags(p), p.keepAlive,
              Prefixed(p.clientID)
              + (Optional(hasWill, p.will.topic) + Optional(hasWill, p.will.payload)
                 + Optional(p.username != [], p.username) + Optional(p.password != [], p.password)))
            == Some(Normal(p))
  {
    hide Prefixed, ReadString, Optional, ReadOptional, Flags, Bit;
    var hasWill := p.will.topic != [];
    var a, b := Optional(hasWill, p.will.topic), Optional(hasWill, p.will.payload);
    var c, d := Optional(p.username != [], p.username), Optional(p.password != [], p.password);
    FlagBits(p);
    assert Prefixed(p.clientID) + (a + b + c + d) == Prefixed(p.clientID) + (a + (b + (c + (d + []))));
    StringFound(p.clientID, a + (b + (c + (d + []))));
    OptionalFound(hasWill, p.will.topic, b + (c + (d + [])));
    OptionalFound(hasWill, p.will.payload, c + (d + []));
    OptionalFound(p.username != [], p.username, d + []);
    OptionalFound(p.password != [], p.password, []);
  }

  lemma BodyFound(p: Packet)
    requires ValidStrings(p)
    ensures DecodeBody(FirstByte(p), Body(p)) == Some(Normal(p))
  {
    hide Prefixed, DecodeConnectFields, Optional, Flags, ReadString, CleanSession;
    match p
    case Disconnect =>
    case Publish(topic, payload, retained) => StringFound(topic, payload);
    case Connect(clientID, username, password, keepAlive, will) =>
      var fields := Prefixed(clientID)
        + (Optional(will.topic != [], will.topic) + Optional(will.topic != [], will.payload)
           + Optional(username != [], username) + Optional(password != [], password));
      var head := [0x04] + [Flags(p)] + Sixteen(keepAlive) + fields;
      assert ConnectBody(p) == Prefixed(PROTOCOL) + head;
      StringFound(PROTOCOL, head);
      assert head[4..] == fields && BigEndian16(head[2], head[3]) == keepAlive;
      FlagBits(p);
      ConnectFieldsFound(p);
  }

  /** Where the parts of an encoded packet are. */
  lemma EncodeParts(p: Packet, rest: Bytes)
    ensures var data := Encode(p) + rest;
            var size := |LengthBytes(|Body(p)|)|;
            data[0] == FirstByte(p) && data[1..] == LengthBytes(|Body(p)|) + (Body(p) + rest) &&
            |Encode(p)| == 1 + size + |Body(p)| && data[1 + size..1 + size + |Body(p)|] == Body(p)
  {
    hide Body, FirstByte, LengthBytes;
  }

  /** A packet is decoded back, whatever follows it. */
  lemma PacketRoundTrip(p: Packet, rest: Bytes)
    requires ValidPacket(p)
    ensures DecodePacket(Encode(p) + rest) == Some(PacketRead(Normal(p), |Encode(p)|))
  {
    hide Body, FirstByte, LengthBytes, Encode, DecodeBody, ReadLength;
    EncodeParts(p, rest);
    FourByteLengths(|Body(p)|);
    LengthRoundTrip(|Body(p)|, MAX_LENGTH_BYTES, Body(p) + rest);
    BodyFound(p);
  }

  /** A string that has been read is never longer than its two length bytes can say. */
  lemma ReadStringsFit(present: bool, data: Bytes)
    ensures ReadString(data).Some? ==> |ReadString(data).value.value| <= MAX_STRING
    ensures ReadOptional(present, data).Some? ==> |ReadOptional(present, data).value.value| <= MAX_STRING
  {
  }

  lemma DecodedFieldsFit(flags: byte, keepAlive: nat, data: Bytes)
    requires keepAlive < 0x1_0000 && DecodeConnectFields(flags, keepAlive, data).Some?
    ensures ValidStrings(DecodeConnectFields(flags, keepAlive, data).value)
  {
    hide ReadString, ReadOptional, Bit;
    var hasWill := Bit(flags, 0x04);
    var clientID := ReadString(data).value;
    var topic := ReadOptional(hasWill, clientID.rest).value;
    var payload := ReadOptional(hasWill, topic.rest).value;
    var username := ReadOptional(Bit(flags, 0x80), payload.rest).value;
    ReadStringsFit(true, data);
    ReadStringsFit(hasWill, clientID.rest);
    ReadStringsFit(hasWill, topic.rest);
    ReadStringsFit(Bit(flags, 0x80), payload.rest);
    ReadStringsFit(Bit(flags, 0x40), username.rest);
  }

  lemma DecodedBodyFits(first: byte, body: Bytes)
    requires DecodeBody(first, body).Some?
    ensures ValidStrings(DecodeBody(first, body).value)
  {
    hide ReadString, DecodeConnectFields;
    ReadStringsFit(true, body);
    if first == 0x10 {
      var head := ReadString(body).value.rest;
      DecodedFieldsFit(head[1], BigEndian16(head[2], head[3]), head[4..]);
    }
  }

  /**
   * A packet is decoded back if and only if its strings fit their length bytes and its remaining
   * length fits four bytes; beyond that the source writes a packet that says something else.
   */
  lemma PacketRoundTripIff(p: Packet, rest: Bytes)
    ensures DecodePacket(Encode(p) + rest) == Some(PacketRead(Normal(p), |Encode(p)|)) <==> ValidPacket(p)
  {
    hide Body, FirstByte, LengthBytes, Encode, DecodeBody, ReadLength;
    if ValidPacket(p) {
      PacketRoundTrip(p, rest);
    } else if DecodePacket(Encode(p) + rest) == Some(PacketRead(Normal(p), |Encode(p)|)) {
      EncodeParts(p, rest);
      FourByteLengths(|Body(p)|);
      LengthRoundTrip(|Body(p)|, MAX_LENGTH_BYTES, Body(p) + rest);
      DecodedBodyFits(FirstByte(p), Body(p));
      assert false;
    }
  }

  /** As long as a packet is incomplete, nothing is decoded. */
  lemma PrefixIsIncomplete(p: Packet, k: nat)
    requires ValidPacket(p) && k < |Encode(p)|
    ensures DecodePacket(Encode(p)[..k]) == None
  {
    hide Body, FirstByte, LengthBytes, Encode, DecodeBody, ReadLength;
    var part := Encode(p)[..k];
    var whole := Encode(p);
    EncodeParts(p, []);
    assert whole + [] == whole;
    var n := |Body(p)|;
    FourByteLengths(n);
    LengthRoundTrip(n, MAX_LENGTH_BYTES, Body(p) + []);
    if k > 0 {
      assert part[1..] == whole[1..][..k - 1];
      LengthOfPrefix(whole[1..], k - 1, MAX_LENGTH_BYTES);
    }
  }

  /** A prefix of a number reads as the number or as nothing. */
  lemma {:induction false} LengthOfPrefix(data: Bytes, k: nat, room: nat)
    requires k <= |data|
    ensures ReadLength(data[..k], room) == None || ReadLength(data[..k], room) == ReadLength(data, room)
    decreases room
  {
    if k > 0 && room > 0 {
      assert data[..k][1..] == data[1..][..k - 1];
      LengthOfPrefix(data[1..], k - 1, room - 1);
    }
  }

  // ---------------------------------------------------------------- streams

  function EncodeAll(packets: seq<Packet>): Bytes {
    if packets == [] then [] else Encode(packets[0]) + EncodeAll(packets[1..])
  }

  function NormalAll(packets: seq<Packet>): seq<Packet> {
    seq(|packets|, i requires 0 <= i < |packets| => Normal(packets[i]))
  }

  predicate AllValid(packets: seq<Packet>) {
    forall i | 0 <= i < |packets| :: ValidPacket(packets[i])
  }

  /**
   * Streams are self-delimiting: any concatenation of packets decodes to the same packets and
   * fields, even if it is cut off within one more packet, which is then left as the rest.
   */
  lemma {:induction false} StreamRoundTrip(packets: seq<Packet>, next: Packet, k: nat)
    requires AllValid(packets) && ValidPacket(next) && k < |Encode(next)|
    ensures DecodeStream(EncodeAll(packets) + Encode(next)[..k]) ==
            StreamRead(NormalAll(packets), Encode(next)[..k])
    decreases |packets|
  {
    hide Encode, DecodePacket, ValidPacket, Normal;
    var tail := Encode(next)[..k];
    if packets == [] {
      assert EncodeAll(packets) + tail == tail;
      PrefixIsIncomplete(next, k);
    } else {
      var first := Encode(packets[0]);
      var others := EncodeAll(packets[1..]) + tail;
      assert EncodeAll(packets) + tail == first + others;
      PacketRoundTrip(packets[0], others);
      assert (first + others)[|first|..] == others;
      StreamRoundTrip(packets[1..], next, k);
      assert NormalAll(packets) == [Normal(packets[0])] + NormalAll(packets[1..]);
    }
  }

  /** Different packet lists never share a wire image. */
  lemma StreamsAreUnique(a: seq<Packet>, b: seq<Packet>)
    requires AllValid(a) && AllValid(b) && EncodeAll(a) == EncodeAll(b)
    ensures NormalAll(a) == NormalAll(b)
  {
    hide Encode, ValidPacket, DecodeStream;
    assert ValidPacket(Disconnect) && |Encode(Disconnect)| > 0 by {
      DisconnectIsValid();
    }
    StreamRoundTrip(a, Disconnect, 0);
    StreamRoundTrip(b, Disconnect, 0);
  }

  lemma DisconnectIsValid()
    ensures ValidPacket(Disconnect) && Encode(Disconnect) == [0xe0, 0x00]
  {
  }

  lemma {:induction false} EncodeAllAppend(a: seq<Packet>, b: seq<Packet>)
    ensures EncodeAll(a + b) == EncodeAll(a) + EncodeAll(b)
    decreases |a|
  {
    hide Encode;
    if a == [] {
      assert a + b == b;
    } else {
      assert (a + b)[1..] == a[1..] + b;
      EncodeAllAppend(a[1..], b);
    }
  }
}
