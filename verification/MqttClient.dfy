/**
 * The connection handling of internal/mqtt/client.go: short writes, one reconnect per publish, and
 * what ends up on the wire. Contexts are never cancelled, so `writePacket` is a synchronous write.
 */
module MqttClient {
  import opened Bytes
  import opened MqttCodec

  /** What `url.Parse` makes of the configured broker. */
  datatype URL = URL(scheme: string, host: string)

  /** Options of the client, the keep-alive in nanoseconds; the password is read at every connect. */
  datatype Options = Options(broker: Option<URL>, clientID: Bytes, username: Bytes, keepAlive: int, will: Will)

  const SECOND: int := 1_000_000_000

  /** Without a keep-alive it is 30 seconds. */
  function WithDefaults(opts: Options): Options {
    if opts.keepAlive == 0 then opts.(keepAlive := 30 * SECOND) else opts
  }

  /** `uint16(KeepAlive/time.Second)`: Go's division truncates towards zero. */
  function KeepAliveSeconds(keepAlive: int): nat {
    (if keepAlive >= 0 then keepAlive / SECOND else -(-keepAlive / SECOND)) % 0x1_0000
  }

  /** The TCP address of the broker, with the standard port unless it names one. */
  function BrokerAddress(broker: Option<URL>): Option<string> {
    match broker
    case None => None
    case Some(url) =>
      if url.scheme != "tcp" || url.host == "" then None
      else if ':' in url.host then Some(url.host) else Some(url.host + ":1883")
  }

  lemma DefaultKeepAlive(opts: Options)
    ensures var keepAlive := WithDefaults(opts).keepAlive;
            KeepAliveSeconds(keepAlive) == if opts.keepAlive == 0 then 30 else KeepAliveSeconds(opts.keepAlive)
  {
  }

  /** Whole seconds, as long as they fit 16 bits. */
  lemma KeepAliveIsWhole(keepAlive: int)
    requires 0 <= keepAlive < 65536 * 1_000_000_000
    ensures var seconds := KeepAliveSeconds(keepAlive);
            seconds * 1_000_000_000 <= keepAlive < (seconds + 1) * 1_000_000_000
  {
  }

  /** There is an address exactly for a TCP URL with a host; it is the host and names a port. */
  lemma BrokerAddressNamesPort(broker: Option<URL>)
    ensures BrokerAddress(broker).Some? <==> broker.Some? && broker.value.scheme == "tcp" && broker.value.host != ""
    ensures BrokerAddress(broker).Some? ==>
              var host, address := broker.value.host, BrokerAddress(broker).value;
              host <= address && ':' in address && (':' in host ==> address == host) &&
              (':' !in host ==> address[|host|..] == ":1883")
  {
    if BrokerAddress(broker).Some? && ':' !in broker.value.host {
      var host := broker.value.host;
      assert (host + ":1883")[|host|] == ':';
    }
  }

  // ---------------------------------------------------------------- what a connection has taken

  /**
   * All the bytes one connection has accepted, read as packets: those of which every byte was
   * accepted, whether or not the write then reported success, and the first `taken` bytes of one more.
   */
  datatype Line = Line(wire: Bytes, whole: seq<Packet>, partial: Packet, taken: nat)

  const NEW_LINE: Line := Line([], [], Disconnect, 0)

  predicate Accurate(l: Line) {
    l.taken < |Encode(l.partial)| && l.wire == EncodeAll(l.whole) + Encode(l.partial)[..l.taken]
  }

  /** The line after `k` more bytes, those of `p`, have been accepted. */
  function Extended(l: Line, p: Packet, k: nat): Line
    requires k <= |Encode(p)|
  {
    var wire := l.wire + Encode(p)[..k];
    if k == 0 then l
    else if k < |Encode(p)| then Line(wire, l.whole, p, k)
    else Line(wire, l.whole + [p], Disconnect, 0)
  }

  /** The PUBLISH packets among `packets`. */
  function Published(packets: seq<Packet>): seq<Packet> {
    if packets == [] then []
    else (if packets[0].Publish? then [packets[0]] else []) + Published(packets[1..])
  }

  /** The PUBLISH packets that went out whole, connection after connection. */
  function Received(lines: seq<Line>): seq<Packet> {
    if lines == [] then [] else Published(lines[0].whole) + Received(lines[1..])
  }

  /** What a broker that decodes each connection's bytes gets to see of PUBLISH packets. */
  function Decoded(lines: seq<Line>): seq<Packet> {
    if lines == [] then [] else Published(DecodeStream(lines[0].wire).packets) + Decoded(lines[1..])
  }

  // ---------------------------------------------------------------- what lies outside

  /** What the network and the password file have answered. */
  datatype Answer =
    | Dialled(address: string, ok: bool)
    | Password(text: Option<Bytes>)
    | Wrote(n: nat, ok: bool)
    | Response(bytes: Option<Bytes>)

  /** A write that took something and reported success. */
  predicate Fine(a: Answer) {
    a.Wrote? && a.ok && a.n > 0
  }

  predicate AllFine(writes: seq<Answer>) {
    forall i | 0 <= i < |writes| :: Fine(writes[i])
  }

  function Taken(writes: seq<Answer>): nat {
    if writes == [] then 0
    else
      var last := writes[|writes| - 1];
      Taken(writes[..|writes| - 1]) + (if last.Wrote? then last.n else 0)
  }

  /**
   * The writes of `size` bytes: one after the other until all bytes are taken or one of them fails
   * or takes nothing, and none after that.
   */
  predicate FullWrite(size: nat, writes: seq<Answer>, ok: bool) {
    if ok then Taken(writes) == size && AllFine(writes)
    else
      writes != [] &&
      var init, last := writes[..|writes| - 1], writes[|writes| - 1];
      AllFine(init) && Taken(init) < size && last.Wrote? && !Fine(last) && Taken(writes) <= size
  }

  // ---------------------------------------------------------------- what the client has done

  /** Why there is no session: the step of `Connect` that failed. */
  datatype Refusal =
    | NoAddress
    | NoDial
    | NoPassword
    | NoUsername
    | NotSent
    | NoAnswer
    | Rejected(response: Bytes)

  /**
   * A call that reached out: `Connect` without a connection, `writePacket`, or `Close` with one.
   * `sent` and `goodbye` are the writes of the CONNECT and of the DISCONNECT packet.
   */
  datatype Call =
    | Connecting(refusal: Option<Refusal>, password: Bytes, sent: seq<Answer>, goodbye: seq<Answer>)
    | Attempt(packet: Packet, ok: bool, writes: seq<Answer>)
    | Closing(goodbye: seq<Answer>)

  /** The steps of `Connect`, up to the one that fails. */
  function Steps(opts: Options, c: Call): seq<Answer>
    requires c.Connecting?
  {
    var address := BrokerAddress(opts.broker);
    var dialled := [Dialled(if address.Some? then address.value else "", true)];
    match c.refusal
    case Some(NoAddress) => []
    case Some(NoDial) => [Dialled(if address.Some? then address.value else "", false)]
    case Some(NoPassword) => dialled + [Password(None)]
    case Some(NoUsername) => dialled + [Password(Some(c.password))]
    case Some(NotSent) => dialled + [Password(Some(c.password))] + c.sent
    case Some(NoAnswer) => dialled + [Password(Some(c.password))] + c.sent + [Response(None)]
    case Some(Rejected(r)) => dialled + [Password(Some(c.password))] + c.sent + [Response(Some(r))]
    case None => dialled + [Password(Some(c.password))] + c.sent + [Response(Some([0x20, 0x02, 0x00, 0x00]))]
  }

  /** What a call got to hear. */
  function AnswersOf(opts: Options, c: Call): seq<Answer> {
    match c
    case Connecting(_, _, _, goodbye) => Steps(opts, c) + goodbye
    case Attempt(_, _, writes) => writes
    case Closing(goodbye) => goodbye
  }

  function Answers(opts: Options, calls: seq<Call>): seq<Answer> {
    if calls == [] then [] else AnswersOf(opts, calls[0]) + Answers(opts, calls[1..])
  }

  /** The CONNECT packet for a password. */
  function ConnectOf(opts: Options, password: Bytes): Packet {
    Packet.Connect(opts.clientID, opts.username, password, KeepAliveSeconds(opts.keepAlive), opts.will)
  }

  predicate IsGoodbye(writes: seq<Answer>) {
    FullWrite(2, writes, true) || FullWrite(2, writes, false)
  }

  /** A call ends as the answers to it demand: no step fails, and none succeeds, without a cause. */
  predicate Caused(opts: Options, c: Call) {
    match c
    case Closing(goodbye) => IsGoodbye(goodbye)
    case Attempt(packet, ok, writes) => FullWrite(|Encode(packet)|, writes, ok)
    case Connecting(refusal, password, sent, goodbye) =>
      RefusalCaused(opts, refusal, password, sent) &&
      if refusal.None? || refusal == Some(NoAddress) || refusal == Some(NoDial) then goodbye == []
      else IsGoodbye(goodbye)
  }

  predicate RefusalCaused(opts: Options, refusal: Option<Refusal>, password: Bytes, sent: seq<Answer>) {
    && (refusal == Some(NoAddress) <==> BrokerAddress(opts.broker).None?)
    && match refusal
       case None => Sends(opts, password, sent, true)
       case Some(NoAddress) => true
       case Some(NoDial) => true
       case Some(NoPassword) => true
       case Some(NoUsername) => password != [] && opts.username == []
       case Some(NotSent) => Sends(opts, password, sent, false)
       case Some(NoAnswer) => Sends(opts, password, sent, true)
       case Some(Rejected(r)) => Sends(opts, password, sent, true) && r != [0x20, 0x02, 0x00, 0x00]
  }

  predicate Sends(opts: Options, password: Bytes, sent: seq<Answer>, ok: bool) {
    (password != [] ==> opts.username != []) && FullWrite(|Encode(ConnectOf(opts, password))|, sent, ok)
  }

  predicate AllCaused(opts: Options, calls: seq<Call>) {
    forall i | 0 <= i < |calls| :: Caused(opts, calls[i])
  }

  predicate IsWhole(c: Call) {
    c.Attempt? && Taken(c.writes) == |Encode(c.packet)|
  }

  /** The packets of the attempts that had every byte accepted. */
  function Arrived(calls: seq<Call>): seq<Packet> {
    if calls == [] then [] else Brought(calls[0]) + Arrived(calls[1..])
  }

  function Brought(c: Call): seq<Packet> {
    if IsWhole(c) then [c.packet] else []
  }

  function Copies(p: Packet, n: nat): seq<Packet> {
    seq(n, i => p)
  }

  /** Message after message, as often as its story says. */
  function Repeated(messages: seq<Packet>, stories: seq<seq<Call>>): seq<Packet>
    requires |stories| <= |messages|
  {
    if stories == [] then []
    else Copies(messages[0], |Arrived(stories[0])|) + Repeated(messages[1..], stories[1..])
  }

  function Flat(stories: seq<seq<Call>>): seq<Call> {
    if stories == [] then [] else stories[0] + Flat(stories[1..])
  }

  predicate IsAttempt(c: Call, p: Packet, ok: bool) {
    c.Attempt? && c.packet == p && c.ok == ok
  }

  predicate IsConnecting(c: Call, ok: bool) {
    c.Connecting? && c.refusal.None? == ok
  }

  predicate IsRetry(calls: seq<Call>, p: Packet, ok: bool)
    requires |calls| == 3
  {
    IsAttempt(calls[0], p, false) && IsConnecting(calls[1], true) && IsAttempt(calls[2], p, ok)
  }

  /**
   * The calls of one publish on a connection: an attempt and, only if it fails, a connect and, only
   * if that succeeds, another attempt, whose outcome is the outcome of the publish.
   */
  predicate Attempts(p: Packet, calls: seq<Call>, ok: bool) {
    if ok then
      || (|calls| == 1 && IsAttempt(calls[0], p, true))
      || (|calls| == 3 && IsRetry(calls, p, true))
    else
      || (|calls| == 2 && IsAttempt(calls[0], p, false) && IsConnecting(calls[1], false))
      || (|calls| == 3 && IsRetry(calls, p, false))
  }

  /** Without a connection a connect comes first; if it fails, so does the publish. */
  predicate Story(p: Packet, connected: bool, calls: seq<Call>, ok: bool) {
    if connected then Attempts(p, calls, ok)
    else
      calls != [] &&
      if IsConnecting(calls[0], true) then Attempts(p, calls[1..], ok)
      else IsConnecting(calls[0], false) && |calls| == 1 && !ok
  }

  /** How often a publish goes out: once for each attempt that had all its bytes accepted. */
  ghost predicate Outcome(p: Packet, calls: seq<Call>, first: nat, ok: bool) {
    var n := |Arrived(calls)|;
    && Arrived(calls) == Copies(p, n) && n <= 2
    && (ok ==> n >= 1 && (n == 2 <==> |calls| == first + 3 && IsWhole(calls[first])))
  }

  // ---------------------------------------------------------------- connections

  /** The network and the password file: anything can happen, and all of it is on record. */
  class Network {
    var trace: seq<Answer>

    constructor ()
      ensures trace == []
    {
      trace := [];
    }

    method Dial(address: string) returns (conn: Conn?)
      modifies this
      ensures trace == old(trace) + [Dialled(address, conn != null)]
      ensures conn != null ==>
                fresh(conn) && conn.network == this && conn.Valid() && !conn.broken && conn.line == NEW_LINE
    {
      var ok: bool := *;
      trace := trace + [Dialled(address, ok)];
      conn := null;
      if ok {
        conn := new Conn(this);
      }
    }

    method ReadPassword() returns (text: Option<Bytes>)
      modifies this
      ensures trace == old(trace) + [Password(text)]
    {
      text := *;
      trace := trace + [Password(text)];
    }
  }

  /**
   * A network connection: writes may be short or fail at any point, possibly after some or all
   * bytes have been accepted. A connection that has failed accepts nothing more.
   */
  class Conn {
    const network: Network
    var wire: Bytes
    var broken: bool
    ghost var line: Line

    ghost predicate Valid()
      reads this
    {
      line.wire == wire && Accurate(line) && (!broken ==> line.taken == 0)
    }

    constructor (network: Network)
      ensures Valid() && !broken && line == NEW_LINE && this.network == network
    {
      this.network := network;
      wire, broken, line := [], false, NEW_LINE;
    }

    method Write(data: Bytes) returns (n: nat, ok: bool)
      modifies this`wire, this`broken, network
      ensures n <= |data| && wire == old(wire) + data[..n]
      ensures network.trace == old(network.trace) + [Wrote(n, ok)]
      ensures old(broken) ==> n == 0 && !ok
      ensures broken == (old(broken) || !ok || (n == 0 && data != []))
    {
      n, ok := 0, false;
      if !broken {
        var accepted: int := *;
        n := if 0 <= accepted <= |data| then accepted else 0;
        ok := *;
        wire := wire + data[..n];
        broken := !ok || (n == 0 && data != []);
      }
      network.trace := network.trace + [Wrote(n, ok)];
    }

    /** Four bytes, or an error. */
    method ReadFull() returns (response: Option<Bytes>)
      modifies network
      ensures response.Some? ==> |response.value| == 4
      ensures network.trace == old(network.trace) + [Response(response)]
    {
      response := *;
      if response.Some? && |response.value| != 4 {
        response := None;
      }
      network.trace := network.trace + [Response(response)];
    }
  }

  /** Write until everything has been accepted or the connection fails. */
  method WriteFull(conn: Conn, data: Bytes) returns (ok: bool, ghost writes: seq<Answer>)
    modifies conn`wire, conn`broken, conn.network
    ensures conn.network.trace == old(conn.network.trace) + writes && FullWrite(|data|, writes, ok)
    ensures Taken(writes) <= |data| && conn.wire == old(conn.wire) + data[..Taken(writes)]
    ensures ok ==> Taken(writes) == |data| && conn.broken == old(conn.broken)
    ensures old(conn.broken) ==> Taken(writes) == 0
    ensures !ok ==> conn.broken
  {
    hide FullWrite, Fine, Taken, AllFine;
    var rest := data;
    writes := [];
    NothingTaken();
    while |rest| > 0
      invariant conn.network.trace == old(conn.network.trace) + writes
      invariant Taken(writes) <= |data| && rest == data[Taken(writes)..]
      invariant AllFine(writes)
      invariant conn.wire == old(conn.wire) + data[..Taken(writes)]
      invariant conn.broken == old(conn.broken) && (Taken(writes) > 0 ==> !conn.broken)
      decreases |rest|
    {
      var n, fine := conn.Write(rest);
      ghost var before := Taken(writes);
      assert data[..before] + rest[..n] == data[..before + n];
      OneMoreWrite(|data|, writes, n, fine);
      writes := writes + [Wrote(n, fine)];
      rest := rest[n..];
      if !fine {
        return false, writes;
      }
      if n == 0 {
        return false, writes;
      }
    }
    AllTaken(writes);
    return true, writes;
  }

  lemma NothingTaken()
    ensures Taken([]) == 0 && AllFine([])
  {
  }

  /** One more write goes on, or ends it all. */
  lemma OneMoreWrite(size: nat, writes: seq<Answer>, n: nat, ok: bool)
    requires AllFine(writes) && Taken(writes) < size && Taken(writes) + n <= size
    ensures Taken(writes + [Wrote(n, ok)]) == Taken(writes) + n
    ensures if ok && n > 0 then AllFine(writes + [Wrote(n, ok)]) else FullWrite(size, writes + [Wrote(n, ok)], false)
  {
    assert (writes + [Wrote(n, ok)])[..|writes|] == writes;
  }

  lemma AllTaken(writes: seq<Answer>)
    requires AllFine(writes)
    ensures FullWrite(Taken(writes), writes, true)
  {
  }

  /** Write a packet, and keep account of what the connection took of it. */
  method Send(conn: Conn, data: Bytes, ghost p: Packet) returns (ok: bool, ghost writes: seq<Answer>)
    requires conn.Valid() && data == Encode(p)
    modifies conn, conn.network
    ensures conn.network.trace == old(conn.network.trace) + writes && FullWrite(|data|, writes, ok)
    ensures conn.Valid() && Taken(writes) <= |data| && conn.line == Extended(old(conn.line), p, Taken(writes))
    ensures ok ==> Taken(writes) == |data| && !conn.broken
    ensures !ok ==> conn.broken
    ensures old(conn.broken) ==> Taken(writes) == 0
  {
    hide Encode, EncodeAll, Accurate, FullWrite;
    EncodeIsNotEmpty(p);
    ok, writes := WriteFull(conn, data);
    ExtendedIsAccurate(conn.line, p, Taken(writes));
    conn.line := Extended(conn.line, p, Taken(writes));
  }

  /** One CONNECT with the options of the client, then only PUBLISH packets. */
  predicate IsSession(opts: Options, log: seq<Packet>) {
    && log != [] && log[0].Connect?
    && log[0].clientID == opts.clientID && log[0].username == opts.username && log[0].will == opts.will
    && log[0].keepAlive == KeepAliveSeconds(opts.keepAlive)
    && (log[0].password != [] ==> opts.username != [])
    && forall i | 1 <= i < |log| :: log[i].Publish?
  }

  class Client {
    const opts: Options
    const network: Network
    var conn: Conn?
    /** What the earlier connections took. */
    ghost var retired: seq<Line>
    ghost var calls: seq<Call>

    /** What all connections took, this one last. */
    ghost function Lines(): seq<Line>
      reads this, conn
    {
      retired + (if conn == null then [] else [conn.line])
    }

    /** All lines are accounted for, and what went out whole is what the attempts say. */
    ghost predicate Accounted()
      reads this, conn
    {
      && (conn != null ==> conn.Valid() && conn.network == network)
      && (forall i | 0 <= i < |retired| :: Accurate(retired[i]))
      && Received(Lines()) == Arrived(calls)
    }

    /** The calls are all that the client had to do with the outside, and each ended with a cause. */
    ghost predicate Recorded()
      reads this, network
    {
      network.trace == Answers(opts, calls) && AllCaused(opts, calls)
    }

    ghost predicate Valid()
      reads this, conn, network
    {
      Accounted() && Recorded() && (conn != null ==> IsSession(opts, conn.line.whole))
    }

    constructor (opts: Options, network: Network)
      requires network.trace == []
      ensures Valid() && conn == null && retired == [] && calls == []
      ensures this.network == network && this.opts == opts.(keepAlive := this.opts.keepAlive)
      ensures KeepAliveSeconds(this.opts.keepAlive) ==
              if opts.keepAlive == 0 then 30 else KeepAliveSeconds(opts.keepAlive)
    {
      DefaultKeepAlive(opts);
      hide KeepAliveSeconds, Accurate;
      this.opts := WithDefaults(opts);
      this.network := network;
      conn, retired, calls := null, [], [];
    }

    /** A call that did not write a PUBLISH goes on record. */
    ghost method Record(c: Call)
      requires Accounted() && !c.Attempt? && Caused(opts, c) && AllCaused(opts, calls)
      requires network.trace == Answers(opts, calls) + AnswersOf(opts, c)
      modifies this`calls
      ensures Accounted() && Recorded() && calls == old(calls) + [c]
    {
      hide Caused, AllCaused, AnswersOf, Answers, Arrived, Received, Accurate, Encode;
      AllCausedNext(opts, calls, c);
      AnswersNext(opts, calls, c);
      ArrivedNext(calls, c);
      calls := calls + [c];
    }

    /**
     * Either the client has a session afterwards or it has no connection at all, and the cause is
     * on record: `Valid` ties it to what the network and the password file have answered.
     */
    method Connect() returns (ok: bool)
      requires Valid()
      modifies this, conn, network
      ensures Valid() && ok == (conn != null) && old(retired) <= retired
      ensures old(conn) != null ==>
                conn == old(conn) && calls == old(calls) && retired == old(retired) &&
                network.trace == old(network.trace) && conn.wire == old(conn.wire) &&
                conn.line == old(conn.line) && conn.broken == old(conn.broken)
      ensures old(conn) == null ==>
                |calls| == |old(calls)| + 1 && old(calls) <= calls && IsConnecting(calls[|old(calls)|], ok) &&
                (ok ==> fresh(conn) && !conn.broken && |conn.line.whole| == 1 &&
                        conn.line.whole[0].password == calls[|old(calls)|].password)
    {
      hide Received, Arrived, Encode, Accurate, AllCaused, Answers, FullWrite;
      if conn != null {
        return true;
      }
      var address := BrokerAddress(opts.broker);
      if address.None? {
        Record(Connecting(Some(NoAddress), [], [], []));
        return false;
      }
      var c := network.Dial(address.value);
      if c == null {
        Record(Connecting(Some(NoDial), [], [], []));
        return false;
      }
      assert retired + [] == retired;
      ReceivedNext(retired, c.line);
      conn := c;

      var password := network.ReadPassword();
      if password.None? {
        Refuse(NoPassword, [], []);
        return false;
      }
      if password.value != [] && opts.username == [] {
        Refuse(NoUsername, password.value, []);
        return false;
      }
      ok := OpenSession(password.value);
    }

    /** `Close` on the way out of a connect that has failed, which goes on record. */
    method Refuse(ghost refusal: Refusal, ghost password: Bytes, ghost sent: seq<Answer>)
      requires Accounted() && AllCaused(opts, calls) && conn != null
      requires RefusalCaused(opts, Some(refusal), password, sent) && !refusal.NoAddress? && !refusal.NoDial?
      requires network.trace == Answers(opts, calls) + Steps(opts, Connecting(Some(refusal), password, sent, []))
      modifies this, conn, network
      ensures Valid() && conn == null && old(retired) <= retired
      ensures |calls| == |old(calls)| + 1 && old(calls) <= calls && IsConnecting(calls[|old(calls)|], false)
    {
      hide Received, Arrived, Accurate, AllCaused, Answers, RefusalCaused, IsGoodbye, Encode, Steps;
      ghost var before := network.trace;
      ghost var goodbye := HangUp();
      ghost var c := Connecting(Some(refusal), password, sent, goodbye);
      StepsOnly(opts, refusal, password, sent, goodbye);
      assert Answers(opts, calls) + AnswersOf(opts, c) == before + goodbye;
      Record(c);
    }

    /** Send CONNECT and wait for the broker to accept it. */
    method OpenSession(password: Bytes) returns (ok: bool)
      requires Accounted() && AllCaused(opts, calls) && conn != null && conn.line == NEW_LINE && !conn.broken
      requires password != [] ==> opts.username != []
      requires BrokerAddress(opts.broker).Some?
      requires network.trace == Answers(opts, calls)
                                + [Dialled(BrokerAddress(opts.broker).value, true)] + [Password(Some(password))]
      modifies this, conn, network
      ensures Valid() && old(retired) <= retired
      ensures |calls| == |old(calls)| + 1 && old(calls) <= calls && IsConnecting(calls[|old(calls)|], ok)
      ensures if ok then conn == old(conn) && !conn.broken && |conn.line.whole| == 1 else conn == null
      ensures ok ==> conn.line.whole[0].password == calls[|old(calls)|].password == password
    {
      hide Encode, Accurate, Arrived, Received, FullWrite, AllCaused, Answers, Steps, IsGoodbye;
      ghost var p := ConnectOf(opts, password);
      ghost var known, heard := Answers(opts, calls), network.trace;
      var packet := ConnectPacket(opts.clientID, opts.username, password, KeepAliveSeconds(opts.keepAlive), opts.will);
      var written;
      ghost var sent;
      written, sent := Send(conn, packet, p);
      LineExtended(retired, NEW_LINE, p, Taken(sent));
      EncodeIsNotEmpty(p);
      if !written {
        StepsOfSession(opts, password, sent, known, heard, []);
        Refuse(NotSent, password, sent);
        return false;
      }
      var response := conn.ReadFull();
      StepsOfSession(opts, password, sent, known, heard, if response.Some? then response.value else []);
      if response.None? {
        Refuse(NoAnswer, password, sent);
        return false;
      }
      var r := response.value;
      if r[0] != 0x20 || r[1] != 0x02 || r[2] != 0x00 || r[3] != 0x00 {
        Refuse(Rejected(r), password, sent);
        return false;
      }
      assert r == [0x20, 0x02, 0x00, 0x00];
      Record(Connecting(None, password, sent, []));
      return true;
    }

    /** Hand a packet to the current connection. */
    method WritePacket(packet: Bytes, ghost p: Packet) returns (ok: bool)
      requires Valid() && conn != null && p.Publish? && packet == Encode(p)
      modifies this`calls, conn, network
      ensures Valid() && (ok <==> !conn.broken)
      ensures ok ==> conn.line.whole == old(conn.line.whole) + [p]
      ensures |calls| == |old(calls)| + 1 && old(calls) <= calls
      ensures var c := calls[|old(calls)|];
              IsAttempt(c, p, ok) && Taken(c.writes) <= |packet| && (ok ==> IsWhole(c)) &&
              (old(conn.broken) ==> Taken(c.writes) == 0) &&
              conn.line == Extended(old(conn.line), p, Taken(c.writes))
    {
      hide Encode, Arrived, Accurate, Received, FullWrite, AllCaused, Answers;
      ghost var line := conn.line;
      ghost var writes;
      ok, writes := Send(conn, packet, p);
      ghost var c := Attempt(p, ok, writes);
      LineExtended(retired, line, p, Taken(writes));
      ArrivedNext(calls, c);
      AnswersNext(opts, calls, c);
      AllCausedNext(opts, calls, c);
      EncodeIsNotEmpty(p);
      calls := calls + [c];
    }

    /**
     * If the publish succeeds, the current connection carries one CONNECT and then whole PUBLISH
     * packets, this one last: on the connection there was, or on a new one that carries nothing
     * else. It fails only if a connect it made fails or its second attempt does: a first attempt
     * that fails is followed by a connect and, if that succeeds, by a second attempt. The packet
     * goes out once for every attempt that had all its bytes accepted, reported or not: at least
     * once and at most twice if the call succeeds, twice exactly when the first of two attempts
     * failed after its last byte; up to twice even if the call fails.
     */
    method PublishJSON(topic: Bytes, payload: Bytes, retained: bool) returns (ok: bool)
      requires Valid()
      modifies this, conn, network
      ensures Valid()
      ensures ok ==>
                var p := Publish(topic, payload, retained);
                conn != null && !conn.broken && IsSession(opts, conn.line.whole) &&
                conn.wire == EncodeAll(conn.line.whole) &&
                ((conn == old(conn) && conn.line.whole == old(if conn == null then [] else conn.line.whole) + [p])
                 || (fresh(conn) && |conn.line.whole| == 2 && conn.line.whole[1] == p))
      ensures !ok ==> conn == null || conn.broken
      ensures old(calls) <= calls && old(retired) <= retired
      ensures var p, story := Publish(topic, payload, retained), calls[|old(calls)|..];
              Story(p, old(conn) != null, story, ok) &&
              Outcome(p, story, if old(conn) == null then 1 else 0, ok) &&
              Received(Lines()) == old(Received(Lines())) + Arrived(story)
      ensures conn == old(conn) || conn == null || fresh(conn)
      ensures old(conn) != null && conn != old(conn) ==>
                var p := Publish(topic, payload, retained);
                |retired| > |old(retired)| && calls[|old(calls)|].Attempt? &&
                Taken(calls[|old(calls)|].writes) <= |Encode(p)| &&
                retired[|old(retired)|] == Extended(old(conn.line), p, Taken(calls[|old(calls)|].writes))
    {
      hide Encode, EncodeAll, Accurate, Received, Arrived, Attempts, IsSession, Outcome, AllCaused, Answers;
      ghost var p := Publish(topic, payload, retained);
      ghost var before, connected := calls, conn != null;
      if conn == null {
        var reached := Connect();
        if !reached {
          StoryTold(opts, p, connected, before, calls, false);
          return false;
        }
      }
      ghost var ready := calls;
      var packet := PublishPacket(topic, payload, retained);
      ok := WriteOrReconnect(packet, p);
      assert calls[|before|..] == ready[|before|..] + calls[|ready|..];
      assert !connected ==> calls[|before|..][1..] == calls[|ready|..];
      assert connected ==> calls[|before|..] == calls[|ready|..];
      StoryTold(opts, p, connected, before, calls, ok);
      if ok {
        WholeOnWire(conn);
      }
    }

    /** Write; if that fails, connect anew and write once more. */
    method WriteOrReconnect(packet: Bytes, ghost p: Packet) returns (ok: bool)
      requires Valid() && conn != null && p.Publish? && packet == Encode(p)
      modifies this, conn, network
      ensures Valid() && old(calls) <= calls && old(retired) <= retired
      ensures Attempts(p, calls[|old(calls)|..], ok)
      ensures ok ==>
                conn != null && !conn.broken &&
                ((conn == old(conn) && conn.line.whole == old(conn.line.whole) + [p])
                 || (fresh(conn) && |conn.line.whole| == 2 && conn.line.whole[1] == p))
      ensures !ok ==> conn == null || conn.broken
      ensures conn == old(conn) || conn == null || fresh(conn)
      ensures calls[|old(calls)|].Attempt? && Taken(calls[|old(calls)|].writes) <= |Encode(p)|
      ensures conn != old(conn) ==>
                |retired| > |old(retired)| &&
                retired[|old(retired)|] == Extended(old(conn.line), p, Taken(calls[|old(calls)|].writes))
    {
      hide Encode, EncodeAll, Accurate, Received, Arrived, IsWhole, IsSession, AllCaused, Answers, Taken, Extended;
      ok := WritePacket(packet, p);
      if ok {
        return;
      }
      CloseConnectionOnly();
      var again := Connect();
      if !again {
        return false;
      }
      ok := WritePacket(packet, p);
    }

    /** Say DISCONNECT if possible, and drop the connection. */
    method Close()
      requires Valid()
      modifies this, conn, network
      ensures Valid() && conn == null
      ensures old(conn) == null ==> calls == old(calls) && retired == old(retired)
      ensures old(conn) != null ==>
                |calls| == |old(calls)| + 1 && old(calls) <= calls && calls[|old(calls)|].Closing? &&
                var goodbye := calls[|old(calls)|].goodbye;
                Taken(goodbye) <= |Encode(Disconnect)| &&
                retired == old(retired) + [Extended(old(conn.line), Disconnect, Taken(goodbye))]
    {
      hide Encode, Received, Arrived, Accurate, Extended, IsGoodbye, AllCaused, Answers, IsSession;
      if conn == null {
        return;
      }
      ghost var goodbye := HangUp();
      Record(Closing(goodbye));
    }

    /** The same, before it goes on record. */
    method HangUp() returns (ghost goodbye: seq<Answer>)
      requires Accounted() && conn != null
      modifies this`conn, this`retired, conn, network
      ensures Accounted() && conn == null
      ensures IsGoodbye(goodbye) && network.trace == old(network.trace) + goodbye
      ensures Taken(goodbye) <= |Encode(Disconnect)|
      ensures retired == old(retired) + [Extended(old(conn.line), Disconnect, Taken(goodbye))]
    {
      DisconnectIsValid();
      hide Encode, Received, Arrived, Accurate, Extended, FullWrite;
      ghost var line := conn.line;
      var written;
      written, goodbye := Send(conn, [0xe0, 0x00], Disconnect);
      LineExtended(retired, line, Disconnect, Taken(goodbye));
      CloseConnectionOnly();
    }

    method CloseConnectionOnly()
      requires Accounted()
      modifies this`conn, this`retired
      ensures Accounted() && conn == null
      ensures retired == old(Lines())
    {
      if conn == null {
        return;
      }
      retired := retired + [conn.line];
      conn := null;
      assert retired + [] == retired;
    }

    /** Connect, publish in order until one fails, and close. */
    method PublishAll(messages: seq<Packet>) returns (ok: bool, ghost opening: seq<Call>, ghost stories: seq<seq<Call>>)
      requires Valid() && forall i | 0 <= i < |messages| :: messages[i].Publish?
      modifies this, conn, network
      ensures Valid() && conn == null && old(calls) <= calls
      ensures IsChronicle(opening, stories, calls[|old(calls)|..])
      ensures Chronicle(messages, old(conn) != null, opening, stories, ok)
      ensures Received(Lines()) == old(Received(Lines())) + Repeated(messages, stories)
    {
      hide Encode, EncodeAll, Accurate, Received, Arrived, IsSession, Repeated, AllCaused, Answers, Story;
      ghost var before := calls;
      stories := [];
      RepeatedNever(messages);
      var reached := Connect();
      opening := calls[|before|..];
      OpeningArrives(before, opening);
      assert calls == before + opening;
      if !reached {
        NothingClosed(opening);
        return false, opening, stories;
      }
      ok, stories := PublishEach(messages);
      ghost var told := calls;
      Close();
      ChronicleClosed(before, opening, stories, told, calls);
    }

    /** The loop over the messages. */
    method PublishEach(messages: seq<Packet>) returns (ok: bool, ghost stories: seq<seq<Call>>)
      requires Valid() && conn != null && forall i | 0 <= i < |messages| :: messages[i].Publish?
      modifies this, conn, network
      ensures Valid() && calls == old(calls) + Flat(stories) && TellsOf(messages, stories, ok)
      ensures Received(Lines()) == old(Received(Lines())) + Repeated(messages, stories)
      ensures conn == old(conn) || conn == null || fresh(conn)
    {
      hide Encode, EncodeAll, Accurate, Received, Arrived, IsSession, Repeated, Flat, AllCaused, Answers, Story, Copies;
      stories := [];
      FlatNothing();
      RepeatedNever(messages);
      for i := 0 to |messages|
        invariant Valid() && conn != null && |stories| == i && calls == old(calls) + Flat(stories)
        invariant forall k | 0 <= k < i :: Story(messages[k], true, stories[k], true)
        invariant Received(Lines()) == old(Received(Lines())) + Repeated(messages, stories)
        invariant conn == old(conn) || fresh(conn)
      {
        var m := messages[i];
        ghost var before := calls;
        var sent := PublishJSON(m.topic, m.payload, m.retained);
        ghost var story := calls[|before|..];
        assert calls == before + story;
        FlatNext(stories, story);
        RepeatedNext(messages, stories, story);
        stories := stories + [story];
        if !sent {
          return false, stories;
        }
      }
      return true, stories;
    }
  }

  /** The stories of messages published one after the other, all of them or up to the first that fails. */
  predicate TellsOf(messages: seq<Packet>, stories: seq<seq<Call>>, ok: bool) {
    && |stories| <= |messages|
    && (if ok then |stories| == |messages| else stories != [])
    && forall i | 0 <= i < |stories| :: Story(messages[i], true, stories[i], ok || i < |stories| - 1)
  }

  /** Without a connection a connect comes first; if it fails, nothing is published. */
  predicate Chronicle(
    messages: seq<Packet>, connected: bool, opening: seq<Call>, stories: seq<seq<Call>>, ok: bool)
  {
    if connected then opening == [] && TellsOf(messages, stories, ok)
    else
      |opening| == 1 &&
      if IsConnecting(opening[0], true) then TellsOf(messages, stories, ok)
      else IsConnecting(opening[0], false) && stories == [] && !ok
  }

  /** These are all the calls there are but for a `Close` at the end. */
  predicate IsChronicle(opening: seq<Call>, stories: seq<seq<Call>>, calls: seq<Call>) {
    var told := opening + Flat(stories);
    told <= calls && |calls| <= |told| + 1 && (|calls| > |told| ==> calls[|told|].Closing?)
  }

  // ---------------------------------------------------------------- facts about lines

  lemma EncodeIsNotEmpty(p: Packet)
    ensures |Encode(p)| >= 2
  {
  }

  lemma EncodeAllSnoc(log: seq<Packet>, p: Packet)
    ensures EncodeAll(log + [p]) == EncodeAll(log) + Encode(p)
  {
    hide Encode, EncodeAll;
    EncodeAllAppend(log, [p]);
    EncodeAllOne(p);
  }

  lemma EncodeAllOne(p: Packet)
    ensures EncodeAll([p]) == Encode(p)
  {
    hide Encode;
    assert [p][1..] == [];
    assert EncodeAll([p]) == Encode(p) + EncodeAll([]);
  }

  lemma ExtendedIsAccurate(l: Line, p: Packet, k: nat)
    requires Accurate(l) && k <= |Encode(p)| && (k > 0 ==> l.taken == 0)
    ensures Accurate(Extended(l, p, k))
    ensures Extended(l, p, k).wire == l.wire + Encode(p)[..k]
  {
    hide Encode, EncodeAll;
    EncodeIsNotEmpty(Disconnect);
    EncodeAllSnoc(l.whole, p);
    assert l.taken == 0 ==> l.wire == EncodeAll(l.whole);
    assert Encode(p)[..|Encode(p)|] == Encode(p);
  }

  lemma WholeOnWire(conn: Conn)
    requires conn.Valid() && !conn.broken
    ensures conn.wire == EncodeAll(conn.line.whole)
  {
    hide Encode, EncodeAll;
  }

  lemma {:induction false} PublishedAppend(a: seq<Packet>, b: seq<Packet>)
    ensures Published(a + b) == Published(a) + Published(b)
    decreases |a|
  {
    hide Published;
    if a == [] {
      assert a + b == b && Published([]) == [] by {
        PublishedUnfolds([]);
      }
    } else {
      assert (a + b)[1..] == a[1..] + b;
      PublishedAppend(a[1..], b);
      PublishedUnfolds(a);
      PublishedUnfolds(a + b);
    }
  }

  lemma PublishedUnfolds(packets: seq<Packet>)
    ensures Published(packets) ==
            if packets == [] then []
            else (if packets[0].Publish? then [packets[0]] else []) + Published(packets[1..])
  {
  }

  lemma {:induction false} ReceivedNext(lines: seq<Line>, l: Line)
    ensures Received(lines + [l]) == Received(lines) + Published(l.whole)
    decreases |lines|
  {
    hide Published, Received;
    ReceivedUnfolds(lines);
    ReceivedUnfolds(lines + [l]);
    if lines == [] {
      assert (lines + [l])[1..] == [];
      ReceivedUnfolds([]);
    } else {
      assert (lines + [l])[1..] == lines[1..] + [l];
      ReceivedNext(lines[1..], l);
    }
  }

  lemma ReceivedUnfolds(lines: seq<Line>)
    ensures Received(lines) == if lines == [] then [] else Published(lines[0].whole) + Received(lines[1..])
  {
  }

  /** A PUBLISH counts as received when its last byte is accepted, and not before. */
  lemma LineExtended(lines: seq<Line>, l: Line, p: Packet, k: nat)
    requires k <= |Encode(p)|
    ensures Received(lines + [Extended(l, p, k)]) ==
            Received(lines + [l]) + (if k == |Encode(p)| && p.Publish? then [p] else [])
  {
    hide Encode, Received;
    EncodeIsNotEmpty(p);
    ReceivedNext(lines, l);
    ReceivedNext(lines, Extended(l, p, k));
    PublishedAppend(l.whole, [p]);
  }

  // ---------------------------------------------------------------- facts about attempts

  lemma {:induction false} ArrivedAppend(a: seq<Call>, b: seq<Call>)
    ensures Arrived(a + b) == Arrived(a) + Arrived(b)
    decreases |a|
  {
    hide Brought, Arrived;
    ArrivedUnfolds(a);
    ArrivedUnfolds(a + b);
    if a == [] {
      assert a + b == b;
    } else {
      assert (a + b)[1..] == a[1..] + b;
      ArrivedAppend(a[1..], b);
    }
  }

  lemma ArrivedUnfolds(calls: seq<Call>)
    ensures Arrived(calls) ==
            if calls == [] then [] else Brought(calls[0]) + Arrived(calls[1..])
  {
  }

  lemma ArrivedNext(calls: seq<Call>, c: Call)
    ensures Arrived(calls + [c]) == Arrived(calls) + Brought(c)
  {
    hide Brought, Arrived;
    ArrivedAppend(calls, [c]);
    ArrivedUnfolds([c]);
    assert [c][1..] == [];
    ArrivedUnfolds([]);
  }

  lemma {:induction false} AnswersNext(opts: Options, calls: seq<Call>, c: Call)
    ensures Answers(opts, calls + [c]) == Answers(opts, calls) + AnswersOf(opts, c)
    decreases |calls|
  {
    hide AnswersOf, Answers;
    AnswersUnfold(opts, calls);
    AnswersUnfold(opts, calls + [c]);
    if calls == [] {
      assert (calls + [c])[1..] == [];
      AnswersUnfold(opts, []);
    } else {
      assert (calls + [c])[1..] == calls[1..] + [c];
      AnswersNext(opts, calls[1..], c);
    }
  }

  /** What has been heard when a session fails to open, or opens. */
  lemma StepsOfSession(
    opts: Options, password: Bytes, sent: seq<Answer>, known: seq<Answer>, heard: seq<Answer>, r: Bytes)
    requires BrokerAddress(opts.broker).Some?
    requires heard == known + [Dialled(BrokerAddress(opts.broker).value, true)] + [Password(Some(password))]
    ensures heard + sent == known + Steps(opts, Connecting(Some(NotSent), password, sent, []))
    ensures heard + sent + [Response(None)] == known + Steps(opts, Connecting(Some(NoAnswer), password, sent, []))
    ensures heard + sent + [Response(Some(r))] ==
            known + Steps(opts, Connecting(Some(Rejected(r)), password, sent, []))
    ensures r == [0x20, 0x02, 0x00, 0x00] ==>
              heard + sent + [Response(Some(r))] == known + AnswersOf(opts, Connecting(None, password, sent, []))
  {
  }

  lemma StepsOnly(opts: Options, refusal: Refusal, password: Bytes, sent: seq<Answer>, goodbye: seq<Answer>)
    ensures Steps(opts, Connecting(Some(refusal), password, sent, goodbye)) ==
            Steps(opts, Connecting(Some(refusal), password, sent, []))
  {
  }

  lemma AllCausedNext(opts: Options, calls: seq<Call>, c: Call)
    requires AllCaused(opts, calls) && Caused(opts, c)
    ensures AllCaused(opts, calls + [c])
  {
    hide Caused;
  }

  lemma AnswersUnfold(opts: Options, calls: seq<Call>)
    ensures Answers(opts, calls) ==
            if calls == [] then [] else AnswersOf(opts, calls[0]) + Answers(opts, calls[1..])
  {
  }

  /** The story of a publish says how often the packet goes out. */
  lemma StoryTold(opts: Options, p: Packet, connected: bool, before: seq<Call>, after: seq<Call>, ok: bool)
    requires before <= after && AllCaused(opts, after) && Story(p, connected, after[|before|..], ok)
    ensures Outcome(p, after[|before|..], if connected then 0 else 1, ok)
    ensures Arrived(after) == Arrived(before) + Arrived(after[|before|..])
  {
    hide Arrived, Outcome, Story;
    var story := after[|before|..];
    assert after == before + story;
    ArrivedAppend(before, story);
    forall i | 0 <= i < |story| && story[i].Attempt? && story[i].ok
      ensures IsWhole(story[i])
    {
      assert Caused(opts, after[|before| + i]);
    }
    StoryArrives(p, connected, story, ok);
  }

  lemma StoryArrives(p: Packet, connected: bool, story: seq<Call>, ok: bool)
    requires Story(p, connected, story, ok)
    requires forall i | 0 <= i < |story| && story[i].Attempt? && story[i].ok :: IsWhole(story[i])
    ensures Outcome(p, story, if connected then 0 else 1, ok)
  {
    hide Arrived, IsWhole, Outcome, Attempts;
    if connected {
      AttemptsArrive(p, story, ok);
    } else {
      ArrivedUnfolds(story);
      ArrivedUnfolds(story[1..]);
      ConnectingIsNotWhole(story[0]);
      if IsConnecting(story[0], true) {
        assert forall i | 0 <= i < |story| - 1 :: story[1..][i] == story[i + 1];
        AttemptsArrive(p, story[1..], ok);
        AttemptsShape(p, story[1..], ok);
        OutcomeAfterConnect(p, story, ok);
      } else {
        NoOutcome(p, story);
      }
    }
  }

  lemma ConnectingIsNotWhole(c: Call)
    ensures c.Connecting? ==> !IsWhole(c)
  {
  }

  lemma AttemptsShape(p: Packet, calls: seq<Call>, ok: bool)
    requires Attempts(p, calls, ok)
    ensures calls != []
  {
  }

  lemma NoOutcome(p: Packet, story: seq<Call>)
    requires Arrived(story) == []
    ensures Outcome(p, story, 1, false)
  {
  }

  lemma OutcomeAfterConnect(p: Packet, story: seq<Call>, ok: bool)
    requires |story| > 1 && Outcome(p, story[1..], 0, ok) && Arrived(story) == Arrived(story[1..])
    ensures Outcome(p, story, 1, ok)
  {
    hide Arrived, IsWhole;
  }

  lemma AttemptsArrive(p: Packet, calls: seq<Call>, ok: bool)
    requires Attempts(p, calls, ok)
    requires forall i | 0 <= i < |calls| && calls[i].Attempt? && calls[i].ok :: IsWhole(calls[i])
    ensures Outcome(p, calls, 0, ok)
  {
    hide Arrived, IsWhole;
    ArrivedUnfolds([]);
    ArrivedUnfolds(calls);
    ArrivedUnfolds(calls[1..]);
    if |calls| > 1 {
      ConnectingIsNotWhole(calls[1]);
      assert calls[1..][1..] == calls[2..];
      ArrivedUnfolds(calls[2..]);
    }
    if |calls| > 2 {
      assert calls[2..][1..] == [];
    }
    assert Arrived(calls) == Copies(p, |Arrived(calls)|);
  }

  // ---------------------------------------------------------------- facts about stories

  lemma RepeatedNever(messages: seq<Packet>)
    ensures Repeated(messages, []) == []
  {
  }

  lemma {:induction false} RepeatedNext(messages: seq<Packet>, stories: seq<seq<Call>>, story: seq<Call>)
    requires |stories| < |messages|
    ensures Repeated(messages, stories + [story]) ==
            Repeated(messages, stories) + Copies(messages[|stories|], |Arrived(story)|)
    decreases |stories|
  {
    hide Arrived, Copies;
    if stories == [] {
      assert [story][1..] == [];
    } else {
      assert (stories + [story])[1..] == stories[1..] + [story];
      RepeatedNext(messages[1..], stories[1..], story);
    }
  }

  lemma FlatNothing()
    ensures Flat([]) == []
  {
  }

  lemma {:induction false} FlatNext(stories: seq<seq<Call>>, story: seq<Call>)
    ensures Flat(stories + [story]) == Flat(stories) + story
    decreases |stories|
  {
    if stories == [] {
      assert [story][1..] == [];
    } else {
      assert (stories + [story])[1..] == stories[1..] + [story];
      FlatNext(stories[1..], story);
    }
  }

  /** A connect brings no packet. */
  lemma OpeningArrives(before: seq<Call>, opening: seq<Call>)
    requires |opening| <= 1 && forall i | 0 <= i < |opening| :: !opening[i].Attempt?
    ensures Arrived(before + opening) == Arrived(before)
  {
    hide Arrived;
    if opening == [] {
      assert before + opening == before;
    } else {
      assert opening == [opening[0]];
      ArrivedNext(before, opening[0]);
    }
  }

  lemma NothingClosed(opening: seq<Call>)
    ensures IsChronicle(opening, [], opening)
  {
    assert opening + Flat([]) == opening;
  }

  lemma ChronicleClosed(before: seq<Call>, opening: seq<Call>, stories: seq<seq<Call>>, told: seq<Call>,
                        after: seq<Call>)
    requires told == before + opening + Flat(stories) && told <= after && |after| <= |told| + 1
    requires |after| > |told| ==> after[|told|].Closing?
    ensures IsChronicle(opening, stories, after[|before|..])
    ensures Arrived(after) == Arrived(told)
  {
    hide Flat, Arrived;
    assert after == told + after[|told|..];
    OpeningArrives(told, after[|told|..]);
    assert told == before + (opening + Flat(stories));
    assert told[|before|..] == opening + Flat(stories);
    assert told[|before|..] <= after[|before|..];
  }

  // ---------------------------------------------------------------- what the broker decodes

  /** Every packet that was begun on the connection keeps within the limits of its length fields. */
  predicate Fits(l: Line) {
    AllValid(l.whole) && ValidPacket(l.partial)
  }

  /**
   * What the broker makes of a connection, however its writes were cut and whatever they reported:
   * the packets of which every byte was accepted, and what there is of one more as the rest.
   */
  lemma BrokerSeesWholePackets(l: Line)
    requires Accurate(l) && Fits(l)
    ensures DecodeStream(l.wire) == StreamRead(NormalAll(l.whole), Encode(l.partial)[..l.taken])
  {
    StreamRoundTrip(l.whole, l.partial, l.taken);
  }

  lemma {:induction false} PublishedIsNormal(packets: seq<Packet>)
    ensures Published(NormalAll(packets)) == Published(packets)
    decreases |packets|
  {
    if packets != [] {
      assert NormalAll(packets)[1..] == NormalAll(packets[1..]);
      PublishedIsNormal(packets[1..]);
    }
  }

  /** Decoding each connection's bytes finds the PUBLISH packets that went out whole on it. */
  lemma {:induction false} DecodedIsReceived(lines: seq<Line>)
    requires forall i | 0 <= i < |lines| :: Accurate(lines[i]) && Fits(lines[i])
    ensures Decoded(lines) == Received(lines)
    decreases |lines|
  {
    hide Accurate, Fits, DecodeStream, NormalAll, Published, Encode;
    if lines != [] {
      BrokerSeesWholePackets(lines[0]);
      PublishedIsNormal(lines[0].whole);
      DecodedIsReceived(lines[1..]);
    }
  }

  /**
   * Over all connections, failed ones included, a broker decodes exactly the PUBLISH packets of
   * the attempts that had all their bytes accepted, in the order of the attempts.
   */
  lemma BrokerReceives(client: Client)
    requires client.Valid() && forall i | 0 <= i < |client.Lines()| :: Fits(client.Lines()[i])
    ensures Decoded(client.Lines()) == Arrived(client.calls)
  {
    hide Arrived, Received, Decoded, Accurate, Fits;
    DecodedIsReceived(client.Lines());
  }
}
