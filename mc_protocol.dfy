/**
 * mc-protocol.js: the Server List Ping exchange built on the protocol types.
 *
 * Modern protocol: every packet is a frame `VarInt(length) ++ VarInt(id) ++ body`.
 * The client sends a handshake and a status request and reads back one
 * response frame whose body is a string holding the server's JSON status.
 *
 * Legacy protocol (servers before 1.7): a fixed FE 01 FA plugin-message ping;
 * the reply is 0xFF, a length in UTF-16 code units, and a UTF-16BE text whose
 * fields are separated by a zero code unit.
 */
module McProtocol {
  import opened Bytes
  import opened Text
  import opened Wrappers
  import opened VarInt
  import opened ProtocolTypes

  // Packet ids (the HANDSHAKE, REQUEST and RESPONSE packets all use id 0).
  const HANDSHAKE: int := 0
  const REQUEST: int := 0
  const RESPONSE: int := 0

  // The handshake target state of a status ping.
  const STATE_PING: int := 1

  const DEFAULT_PORT: int := 25565
  const DEFAULT_TIMEOUT: int := 5000

  /** A frame: the VarInt length of the inner packet, then the inner packet (VarInt id, body). */
  function Frame(id: int, body: seq<Byte>): seq<Byte>
  {
    Encode(|Encode(id)| + |body|) + Encode(id) + body
  }

  /** The value of a frame's length prefix: the size of the inner packet. */
  function FrameLength(id: int, body: seq<Byte>): nat
  {
    |Encode(id)| + |body|
  }

  /**
   * `makePacket(id, buffer)`: the inner packet built first, then prefixed by its
   * length. A missing buffer (`undefined`) adds nothing.
   */
  method MakePacket(id: int, buffer: Option<seq<Byte>>) returns (packet: seq<Byte>)
    ensures packet == Frame(id, if buffer.Some? then buffer.value else [])
  {
    ghost var body := if buffer.Some? then buffer.value else [];
    var innerPacketBuilder := new BufferBuilder();
    innerPacketBuilder.PutVarInt(id, false);
    assert innerPacketBuilder.Build() == Encode(id);
    if buffer.Some? {
      innerPacketBuilder.PutBuffer(buffer.value, false);
    }
    var innerPacket := innerPacketBuilder.Build();
    assert innerPacket == Encode(id) + body;
    var fullPacket := new BufferBuilder();
    fullPacket.PutVarInt(|innerPacket|, false);
    assert fullPacket.Build() == Encode(|innerPacket|);
    fullPacket.PutBuffer(innerPacket, false);
    packet := fullPacket.Build();
    FrameOfParts(id, body, innerPacket, packet);
  }

  /** The length-prefixed inner packet is the frame. */
  lemma FrameOfParts(id: int, body: seq<Byte>, inner: seq<Byte>, packet: seq<Byte>)
    requires inner == Encode(id) + body && packet == Encode(|inner|) + inner
    ensures packet == Frame(id, body)
  {
  }

  /**
   * A frame reads back with the codec: the length prefix gives the size of
   * the inner packet, which starts with the id and ends with the body.
   */
  lemma FrameRoundTrip(id: int, body: seq<Byte>, rest: seq<Byte>)
    requires -TWO_31 <= id < TWO_31 && FrameLength(id, body) < TWO_31
    ensures var n := FrameLength(id, body); var p := Frame(id, body) + rest;
      Decode(p) == Some(Decoded(n, |Encode(n)|))
      && |Encode(n)| + n <= |p|
      && p[|Encode(n)|..|Encode(n)| + n] == Encode(id) + body
      && Decode(Encode(id) + body) == Some(Decoded(id, |Encode(id)|))
  {
    var n := FrameLength(id, body);
    var e, inner := Encode(n), Encode(id) + body;
    assert Frame(id, body) == e + inner;
    EncodeDecodeInt32(n, inner + rest);
    FrameParts(e, inner, rest, n);
    EncodeDecodeInt32(id, body);
  }

  /** A length prefix `e` that decodes to the packet's size, the packet and what follows: the packet cut back out. */
  lemma FrameParts(e: seq<Byte>, inner: seq<Byte>, rest: seq<Byte>, n: int)
    requires n == |inner| && Decode(e + (inner + rest)) == Some(Decoded(n, |e|))
    ensures Decode(e + inner + rest) == Some(Decoded(n, |e|))
    ensures |e| + n <= |e + inner + rest| && (e + inner + rest)[|e|..|e| + n] == inner
  {
    assert e + inner + rest == e + (inner + rest);
  }

  /**
   * `makeHandshakePacket(hostname, port, targetState)`: protocol version -1,
   * the host name as a string, the port as an unsigned 16-bit little-endian
   * value and the target state. A port outside 0..65535 makes the 16-bit
   * write throw.
   */
  method MakeHandshakePacket(hostname: string, port: int, targetState: int) returns (r: Result<seq<Byte>>)
    ensures !(0 <= port < 0x1_0000) ==> r == Err(OutOfRange)
    ensures 0 <= port < 0x1_0000 ==>
      r == Ok(Frame(HANDSHAKE, HandshakeBody(-1, hostname, port, targetState)))
  {
    var builder := new BufferBuilder();
    builder.PutVarInt(-1, false);
    assert builder.Build() == Encode(-1);
    builder.PutString(hostname, false);
    assert builder.Build() == Encode(-1) + StringBytes(hostname);
    if !(0 <= port < 0x1_0000) {
      return Err(OutOfRange);
    }
    builder.PutUShort(port, false);
    assert builder.Build() == Encode(-1) + StringBytes(hostname) + LE16(port);
    builder.PutVarInt(targetState, false);
    var packet := MakePacket(HANDSHAKE, Some(builder.Build()));
    r := Ok(packet);
  }

  /** The body of a handshake packet: protocol version, host name, port, target state. */
  function HandshakeBody(version: int, hostname: string, port: U16, targetState: int): seq<Byte>
  {
    Encode(version) + StringBytes(hostname) + LE16(port) + Encode(targetState)
  }

  /**
   * A server reading the handshake body with the same codec gets every field
   * back: the version -1, the host name, the port and the target state.
   */
  lemma HandshakeRoundTrip(hostname: string, port: U16, targetState: int)
    requires |CodeUnits(hostname)| == |Utf8(hostname)| < TWO_31
    requires -TWO_31 <= targetState < TWO_31
    ensures var body, at := HandshakeBody(-1, hostname, port, targetState), |Encode(-1)| + |StringBytes(hostname)|;
      Decode(body) == Some(Decoded(-1, |Encode(-1)|))
      && StringAt(body, |Encode(-1)|) == Ok(Utf8(hostname))
      && at + 2 <= |body| && ReadLE16(body[at], body[at + 1]) == port
      && Decode(body[at + 2..]) == Some(Decoded(targetState, |body| - at - 2))
  {
    HandshakeVersion(-1, hostname, port, targetState);
    HandshakeHost(-1, hostname, port, targetState);
    HandshakePortState(-1, hostname, port, targetState);
  }

  lemma HandshakeVersion(version: int, hostname: string, port: U16, targetState: int)
    requires -TWO_31 <= version < TWO_31
    ensures Decode(HandshakeBody(version, hostname, port, targetState)) == Some(Decoded(version, |Encode(version)|))
  {
    var tail := StringBytes(hostname) + LE16(port) + Encode(targetState);
    assert HandshakeBody(version, hostname, port, targetState) == Encode(version) + tail;
    EncodeDecodeInt32(version, tail);
  }

  lemma HandshakeHost(version: int, hostname: string, port: U16, targetState: int)
    requires |CodeUnits(hostname)| == |Utf8(hostname)| < TWO_31
    ensures StringAt(HandshakeBody(version, hostname, port, targetState), |Encode(version)|) == Ok(Utf8(hostname))
  {
    var tail := LE16(port) + Encode(targetState);
    Regroup(Encode(version), StringBytes(hostname), LE16(port), Encode(targetState));
    StringThenTail(Encode(version), hostname, tail);
  }

  /** Four joined spans, regrouped from the right. */
  lemma Regroup<T>(a: seq<T>, b: seq<T>, c: seq<T>, d: seq<T>)
    ensures a + b + c + d == a + (b + (c + d))
  {
  }

  lemma HandshakePortState(version: int, hostname: string, port: U16, targetState: int)
    requires -TWO_31 <= targetState < TWO_31
    ensures var body, at := HandshakeBody(version, hostname, port, targetState), |Encode(version)| + |StringBytes(hostname)|;
      at + 2 <= |body| && ReadLE16(body[at], body[at + 1]) == port
      && Decode(body[at + 2..]) == Some(Decoded(targetState, |body| - at - 2))
  {
    var body := HandshakeBody(version, hostname, port, targetState);
    var at := |Encode(version)| + |StringBytes(hostname)|;
    assert body[at..at + 2] == LE16(port);
    UShortRoundTrip(port);
    assert body[at + 2..] == Encode(targetState) + [];
    EncodeDecodeInt32(targetState, []);
  }

  /**
   * The handshake `pingServer` sends asks for the status state: its body ends
   * with the one-byte VarInt 01.
   */
  lemma PingHandshakeState(hostname: string, port: U16)
    ensures var body := HandshakeBody(-1, hostname, port, STATE_PING);
      |body| >= 1 && body[|body| - 1] == 0x01
      && Decode(body[|body| - 1..]) == Some(Decoded(STATE_PING, 1))
  {
    assert Encode(STATE_PING) == [0x01];
    HandshakePortState(-1, hostname, port, STATE_PING);
  }

  /** A string written after `head` reads back from the offset where it starts. */
  lemma StringThenTail(head: seq<Byte>, s: string, tail: seq<Byte>)
    requires |CodeUnits(s)| == |Utf8(s)| < TWO_31
    ensures StringAt(head + (StringBytes(s) + tail), |head|) == Ok(Utf8(s))
  {
    var n := |CodeUnits(s)|;
    assert StringBytes(s) + tail == Encode(n) + (Utf8(s) + tail);
    EncodeDecodeInt32(n, Utf8(s) + tail);
    StringAtShift(head, StringBytes(s) + tail);
    StringRoundTrip(s, tail);
  }

  /** A string framed by its UTF-8 length after `head` reads back whole from the offset where it starts. */
  lemma ServerStringThenTail(head: seq<Byte>, s: string, tail: seq<Byte>)
    requires |Utf8(s)| < TWO_31
    ensures StringAt(head + (ServerStringBytes(s) + tail), |head|) == Ok(Utf8(s))
  {
    var n := |Utf8(s)|;
    assert ServerStringBytes(s) + tail == Encode(n) + (Utf8(s) + tail);
    EncodeDecodeInt32(n, Utf8(s) + tail);
    StringAtShift(head, ServerStringBytes(s) + tail);
    ServerStringRoundTrip(s, tail);
  }

  /** `StringAt` only looks at the bytes from its offset on. */
  lemma StringAtShift(prefix: seq<Byte>, t: seq<Byte>)
    requires Decode(t).Some? ==> Decode(t).value.value >= 0
    ensures StringAt(prefix + t, |prefix|) == StringAt(t, 0)
  {
    var s := prefix + t;
    assert TailFrom(s, |prefix|) == t == TailFrom(t, 0);
    match Decode(t)
    case None =>
      assert StringAt(s, |prefix|) == Err(OutOfRange) == StringAt(t, 0);
    case Some(d) =>
      var lo, hi := d.length, d.length + d.value;
      SliceShift(prefix, t, lo, hi);
      assert StringAt(s, |prefix|) == Ok(JsSlice(s, |prefix| + lo, |prefix| + hi));
      assert StringAt(t, 0) == Ok(JsSlice(t, lo, hi));
  }

  /** `Buffer.slice` on a suffix, with the offsets shifted (a negative end would count from another end). */
  lemma SliceShift(prefix: seq<Byte>, t: seq<Byte>, lo: nat, hi: nat)
    ensures JsSlice(prefix + t, |prefix| + lo, |prefix| + hi) == JsSlice(t, lo, hi)
  {
    var s := prefix + t;
    var a, b := SliceIndex(|prefix| + lo, |s|), SliceIndex(|prefix| + hi, |s|);
    var a', b' := SliceIndex(lo, |t|), SliceIndex(hi, |t|);
    if a < b {
      assert a == |prefix| + a' && b == |prefix| + b';
      assert s[a..b] == t[a'..b'];
    }
  }

  /** `makeRequestPacket()`: id 0 and no body, framed. */
  method MakeRequestPacket() returns (packet: seq<Byte>)
    ensures packet == [0x01, 0x00]
  {
    packet := MakePacket(REQUEST, None);
    assert Encode(0) == [0x00] by {
      EncodeZero();
    }
    assert Encode(1) == [0x01];
  }

  /**
   * What `decodePacket` makes of the bytes of a reader at `offset`: the id,
   * then, for the one registered id (the status response), its string.
   */
  function PacketAt(s: seq<Byte>, offset: int): (r: Result<seq<Byte>>)
    ensures Decode(TailFrom(s, offset)).None? ==> r == Err(OutOfRange)
  {
    PacketWithId(s, offset, Decode(TailFrom(s, offset)))
  }

  /** The rest of `decodePacket` once `readVarInt` has given `id` (None: it threw). */
  function PacketWithId(s: seq<Byte>, offset: int, id: Option<Decoded>): Result<seq<Byte>>
  {
    match id
    case None => Err(OutOfRange)
    case Some(d) =>
      if d.value != RESPONSE then Err(UnknownPacket(d.value))
      else StringAt(s, offset + d.length)
  }

  /**
   * Where `decodePacket` leaves a cursor that started at `offset`: past the id,
   * and for the status response past its string too.
   */
  function PacketEnd(s: seq<Byte>, offset: int): int
  {
    EndWithId(s, offset, Decode(TailFrom(s, offset)))
  }

  /** The rest of `PacketEnd` once `readVarInt` has given `id` (None: it threw). */
  function EndWithId(s: seq<Byte>, offset: int, id: Option<Decoded>): int
  {
    match id
    case None => offset + |TailFrom(s, offset)| + 1
    case Some(d) => if d.value != RESPONSE then offset + d.length else StringEnd(s, offset + d.length)
  }

  /** `decodePacket(reader)`: the JSON text is returned as its UTF-8 bytes. */
  method DecodePacket(reader: BufferReader) returns (r: Result<seq<Byte>>)
    modifies reader
    ensures r == PacketAt(reader.buffer[..], old(reader.offset))
    ensures reader.offset == PacketEnd(reader.buffer[..], old(reader.offset))
  {
    ghost var s, start := reader.buffer[..], reader.offset;
    var id := reader.ReadVarInt();
    PacketAfterRead(s, start, Decode(TailFrom(s, start)), id, reader.offset);
    if id.Err? {
      return Err(OutOfRange);
    }
    if id.value != RESPONSE {
      return Err(UnknownPacket(id.value));
    }
    r := reader.ReadString();
  }

  /** Once `readVarInt` has given `id` and moved to `next`, the outcome is its error, the unknown-packet error or the string at `next`. */
  lemma PacketAfterRead(s: seq<Byte>, start: int, decoded: Option<Decoded>, id: Result<int>, next: int)
    requires match decoded
      case Some(d) => id == Ok(d.value) && next == start + d.length
      case None => id == Err(OutOfRange) && next == start + |TailFrom(s, start)| + 1
    ensures id.Err? ==> PacketWithId(s, start, decoded) == Err(OutOfRange) && EndWithId(s, start, decoded) == next
    ensures id.Ok? && id.value != RESPONSE ==>
      PacketWithId(s, start, decoded) == Err(UnknownPacket(id.value)) && EndWithId(s, start, decoded) == next
    ensures id.Ok? && id.value == RESPONSE ==>
      PacketWithId(s, start, decoded) == StringAt(s, next) && EndWithId(s, start, decoded) == StringEnd(s, next)
  {
  }

  /**
   * The status response a server sends (id 0, then the JSON framed by its
   * UTF-8 length) reads back as the whole JSON text, whatever characters it has.
   */
  lemma ResponsePacketReads(json: string, rest: seq<Byte>)
    requires |Utf8(json)| < TWO_31
    ensures PacketAt(Encode(RESPONSE) + ServerStringBytes(json) + rest, 0) == Ok(Utf8(json))
  {
    var t := ServerStringBytes(json) + rest;
    assert Encode(RESPONSE) + ServerStringBytes(json) + rest == Encode(RESPONSE) + t;
    PacketAtId(RESPONSE, t);
    ServerStringThenTail(Encode(RESPONSE), json, rest);
  }

  /** `decodePacket` leaves the cursor right after a status response packet, whatever follows it. */
  lemma ResponsePacketEnd(json: string, rest: seq<Byte>)
    requires |Utf8(json)| < TWO_31
    ensures PacketEnd(Encode(RESPONSE) + ServerStringBytes(json) + rest, 0) == |Encode(RESPONSE) + ServerStringBytes(json)|
  {
    var head, n := Encode(RESPONSE), |Utf8(json)|;
    var body := Encode(n) + (Utf8(json) + rest);
    var all := head + body;
    assert Encode(RESPONSE) + ServerStringBytes(json) + rest == all;
    assert Decode(TailFrom(all, 0)) == Some(Decoded(RESPONSE, |head|)) by {
      assert TailFrom(all, 0) == all;
      EncodeDecodeInt32(RESPONSE, body);
    }
    assert Decode(TailFrom(all, |head|)) == Some(Decoded(n, |Encode(n)|)) by {
      assert TailFrom(all, |head|) == body;
      EncodeDecodeInt32(n, Utf8(json) + rest);
    }
    ResponseEnd(all, |head|, n, |Encode(n)|);
  }

  /** An id 0 of k bytes, then a complete length prefix of m bytes declaring n: the cursor ends at k + m + n. */
  lemma ResponseEnd(s: seq<Byte>, k: nat, n: int, m: nat)
    requires Decode(TailFrom(s, 0)) == Some(Decoded(RESPONSE, k))
    requires Decode(TailFrom(s, k)) == Some(Decoded(n, m))
    ensures PacketEnd(s, 0) == k + m + n
  {
  }

  /** Any other id is refused, whatever follows it. */
  lemma UnknownPacketRejected(id: int, rest: seq<Byte>)
    requires -TWO_31 <= id < TWO_31 && id != RESPONSE
    ensures PacketAt(Encode(id) + rest, 0) == Err(UnknownPacket(id))
  {
    PacketAtId(id, rest);
  }

  /** What follows the id decides the outcome only for the registered id. */
  lemma PacketAtId(id: int, t: seq<Byte>)
    requires -TWO_31 <= id < TWO_31
    ensures id != RESPONSE ==> PacketAt(Encode(id) + t, 0) == Err(UnknownPacket(id))
    ensures id == RESPONSE ==> PacketAt(Encode(id) + t, 0) == StringAt(Encode(id) + t, |Encode(id)|)
  {
    assert TailFrom(Encode(id) + t, 0) == Encode(id) + t;
    EncodeDecodeInt32(id, t);
  }

  /** The bytes after a stream's length prefix (none when the prefix is incomplete). */
  function AfterLength(s: seq<Byte>): (t: seq<Byte>)
    ensures |t| <= |s|
  {
    match Decode(s)
    case None => []
    case Some(d) => s[d.length..]
  }

  /**
   * What `readPacket` returns on the stream `s` of everything the server
   * sends: None when the length prefix is negative, where the outcome depends
   * on how many bytes had already arrived (see `ReadPacket`).
   */
  function PacketStream(s: seq<Byte>): (r: Option<Result<seq<Byte>>>)
    ensures Decode(s).None? ==> r == Some(Err(StreamClosed))
    ensures r.None? <==> Decode(s).Some? && Decode(s).value.value < 0
  {
    match Decode(s)
    case None => Some(Err(StreamClosed))
    case Some(d) =>
      var t := AfterLength(s);
      if d.value < 0 then None
      else if d.value > |t| then Some(Err(StreamClosed))
      else Some(PacketAt(t[..d.value], 0))
  }

  /**
   * `readPacket(socket)`: the frame length, then that many bytes, decoded. A
   * length of zero or less is served at once from what is buffered, and a
   * negative one cuts from its end.
   */
  method ReadPacket(socket: SocketWrapper, incoming: seq<seq<Byte>>) returns (r: Result<seq<Byte>>, rest: seq<seq<Byte>>)
    requires socket.Valid() && socket.bytesToRead == 0
    modifies socket
    ensures socket.Valid()
    ensures var s := old(socket.buffer) + Concat(incoming);
      match PacketStream(s)
      case Some(outcome) => r == outcome
      case None => exists n | 0 <= n <= |AfterLength(s)| ::
        r == PacketAt(AfterLength(s)[..n], 0) && socket.buffer + Concat(rest) == AfterLength(s)[n..]
    ensures var s := old(socket.buffer) + Concat(incoming);
      Decode(s).Some? && 0 <= Decode(s).value.value <= |AfterLength(s)| ==>
        socket.bytesToRead == 0 && socket.received
        && socket.buffer + Concat(rest) == AfterLength(s)[Decode(s).value.value..]
    ensures var s := old(socket.buffer) + Concat(incoming);
      Decode(s).None? ==> socket.buffer == [] && socket.bytesToRead == 1 && rest == []
    ensures var s := old(socket.buffer) + Concat(incoming);
      Decode(s).Some? && Decode(s).value.value > |AfterLength(s)| ==>
        socket.buffer == AfterLength(s) && socket.bytesToRead == Decode(s).value.value && socket.received && rest == []
  {
    ghost var s := old(socket.buffer) + Concat(incoming);
    var length;
    length, rest := socket.ReadVarInt(incoming);
    if length.Err? {
      return Err(StreamClosed), rest;
    }
    ghost var t := AfterLength(s);
    ghost var held, tail := socket.buffer, Concat(rest);
    assert Decode(s).Some? && Decode(s).value.value == length.value && held + tail == t;
    PacketStreamCases(s, length.value);
    var data;
    data, rest := socket.AwaitRead(length.value, rest);
    if data.Err? {
      return Err(StreamClosed), rest;
    }
    ghost var n := FrameTaken(held, tail, length.value, data.value, socket.buffer + Concat(rest));
    r := DecodeBytes(data.value);
  }

  /**
   * What `read(length)` takes after the length prefix and what it leaves: the
   * first `n` bytes after the prefix and the bytes after them, where `n` is
   * the length, or where `Buffer.slice` puts a negative one in the buffer.
   */
  lemma FrameTaken(held: seq<Byte>, tail: seq<Byte>, length: int, data: seq<Byte>, left: seq<Byte>) returns (n: nat)
    requires length <= 0 ==> data == JsSlice(held, 0, length) && left == JsSlice(held, length, |held|) + tail
    requires 0 < length ==> length <= |held + tail| && data == (held + tail)[..length] && left == (held + tail)[length..]
    ensures n <= |held + tail| && (0 <= length ==> n == length)
    ensures data == (held + tail)[..n] && left == (held + tail)[n..]
  {
    if length > 0 {
      n := length;
    } else {
      n := SliceIndex(length, |held|);
      SliceFromStart(held, length);
      SliceToEnd(held, length);
      assert (held + tail)[n..] == held[n..] + tail;
    }
  }

  /** The three outcomes of `PacketStream` once the length prefix is complete. */
  lemma PacketStreamCases(s: seq<Byte>, length: int)
    requires Decode(s).Some? && Decode(s).value.value == length
    ensures var t := AfterLength(s);
      && (length < 0 ==> PacketStream(s).None?)
      && (0 <= length <= |t| ==> PacketStream(s) == Some(PacketAt(t[..length], 0)))
      && (length > |t| ==> PacketStream(s) == Some(Err(StreamClosed)))
  {
  }

  /** `decodePacket(new BufferReader(data))`. */
  method DecodeBytes(data: seq<Byte>) returns (r: Result<seq<Byte>>)
    ensures r == PacketAt(data, 0)
  {
    var buffer := ToArray(data);
    var reader := new BufferReader(buffer);
    r := DecodePacket(reader);
  }

  /** A fresh Node buffer holding `bytes`. */
  method ToArray(bytes: seq<Byte>) returns (a: array<Byte>)
    ensures fresh(a) && a[..] == bytes
  {
    a := new Byte[|bytes|](i requires 0 <= i < |bytes| => bytes[i]);
  }

  /** The status response framed by a server reads back as its whole JSON text. */
  lemma ResponseStreamReads(json: string, rest: seq<Byte>)
    requires FrameLength(RESPONSE, ServerStringBytes(json)) < TWO_31
    ensures PacketStream(Frame(RESPONSE, ServerStringBytes(json)) + rest) == Some(Ok(Utf8(json)))
  {
    var body := ServerStringBytes(json);
    var n := FrameLength(RESPONSE, body);
    var s := Frame(RESPONSE, body) + rest;
    FrameRoundTrip(RESPONSE, body, rest);
    assert AfterLength(s)[..n] == Encode(RESPONSE) + body + [];
    ResponsePacketReads(json, []);
  }

  /** `options`: each field may be missing (`undefined`). */
  datatype Options = Options(port: Option<int>, timeout: Option<int>)

  datatype SrvRecord = SrvRecord(name: string, port: U16)

  /** The outcome of `dns.resolveSrv`: it rejects, or resolves to a list of records. */
  datatype SrvLookup = LookupFailed | Records(records: seq<SrvRecord>)

  datatype Endpoint = Endpoint(host: string, port: int, timeout: int)

  /** The SRV name looked up for a host name. */
  function SrvName(host: string): string
  {
    "_minecraft._tcp." + host
  }

  /** `options?.port ?? 25565` */
  function RequestedPort(options: Option<Options>): int
  {
    if options.Some? && options.value.port.Some? then options.value.port.value else DEFAULT_PORT
  }

  /** `options?.timeout ?? 5000` */
  function RequestedTimeout(options: Option<Options>): int
  {
    if options.Some? && options.value.timeout.Some? then options.value.timeout.value else DEFAULT_TIMEOUT
  }

  /**
   * `parseParams(host, options)`. `isIP` stands for `net.isIP` and `resolveSrv`
   * for the DNS resolver, each as the answer it gives.
   */
  function ParseParams(host: string, options: Option<Options>, isIP: string -> bool, resolveSrv: string -> SrvLookup): (e: Endpoint)
    ensures e.timeout == RequestedTimeout(options)
  {
    var port := RequestedPort(options);
    if isIP(host) then Endpoint(host, port, RequestedTimeout(options))
    else
      var lookup := resolveSrv(SrvName(host));
      if lookup.Records? && |lookup.records| > 0 then
        Endpoint(lookup.records[0].name, lookup.records[0].port, RequestedTimeout(options))
      else Endpoint(host, port, RequestedTimeout(options))
  }

  /** Without options the defaults apply: port 25565 unless SRV says otherwise, timeout 5000. */
  lemma ParseParamsDefaults(host: string, isIP: string -> bool, resolveSrv: string -> SrvLookup)
    ensures ParseParams(host, None, isIP, resolveSrv).timeout == 5000
    ensures isIP(host) ==> ParseParams(host, None, isIP, resolveSrv) == Endpoint(host, 25565, 5000)
  {
  }

  /** An IP address is used as it is: DNS is not consulted. */
  lemma ParseParamsIpSkipsDns(host: string, options: Option<Options>, isIP: string -> bool,
                              dns1: string -> SrvLookup, dns2: string -> SrvLookup)
    requires isIP(host)
    ensures ParseParams(host, options, isIP, dns1) == ParseParams(host, options, isIP, dns2)
    ensures ParseParams(host, options, isIP, dns1).host == host
    ensures ParseParams(host, options, isIP, dns1).port == RequestedPort(options)
  {
  }

  /** The first SRV record wins, even over a port given in the options. */
  lemma ParseParamsSrvWins(host: string, options: Option<Options>, isIP: string -> bool, resolveSrv: string -> SrvLookup)
    requires !isIP(host)
    requires resolveSrv(SrvName(host)).Records? && |resolveSrv(SrvName(host)).records| > 0
    ensures var first := resolveSrv(SrvName(host)).records[0];
      ParseParams(host, options, isIP, resolveSrv).host == first.name
      && ParseParams(host, options, isIP, resolveSrv).port == first.port
  {
  }

  /** A failed lookup or an empty answer leaves the host and the requested port. */
  lemma ParseParamsNoSrv(host: string, options: Option<Options>, isIP: string -> bool, resolveSrv: string -> SrvLookup)
    requires resolveSrv(SrvName(host)).LookupFailed? || resolveSrv(SrvName(host)).records == []
    ensures ParseParams(host, options, isIP, resolveSrv).host == host
    ensures ParseParams(host, options, isIP, resolveSrv).port == RequestedPort(options)
  {
  }

  /**
   * The pair-swapping loop of `toUTF16LE` and `fromUTF16BE` as a function of
   * the span: each pair of bytes exchanged. A lone last byte reads its
   * missing partner as `undefined`, which the byte store turns into 0.
   */
  function SwapPairs(b: seq<Byte>): (r: seq<Byte>)
    ensures |r| == |b|
  {
    seq(|b|, j requires 0 <= j < |b| => PairedByte(b, j))
  }

  /** The byte the swap leaves at position j of the span. */
  function PairedByte(b: seq<Byte>, j: nat): Byte
    requires j < |b|
  {
    if j % 2 == 0 then (if j + 1 < |b| then b[j + 1] else 0) else b[j - 1]
  }

  lemma SwapPairsAppend(x: seq<Byte>, y: seq<Byte>)
    requires |x| % 2 == 0
    ensures SwapPairs(x + y) == SwapPairs(x) + SwapPairs(y)
  {
    var l, r := SwapPairs(x + y), SwapPairs(x) + SwapPairs(y);
    forall j | 0 <= j < |l|
      ensures l[j] == r[j]
    {
      assert l[j] == PairedByte(x + y, j);
      if j < |x| {
        assert r[j] == PairedByte(x, j);
        if j % 2 == 0 {
          assert j + 1 < |x| && (x + y)[j + 1] == x[j + 1];
        }
      } else {
        var k := j - |x|;
        assert r[j] == PairedByte(y, k);
        assert k % 2 == j % 2;
      }
    }
  }

  /** On an even number of bytes, swapping twice restores the bytes. */
  lemma SwapPairsInvolution(b: seq<Byte>)
    requires |b| % 2 == 0
    ensures SwapPairs(SwapPairs(b)) == b
  {
    var r := SwapPairs(SwapPairs(b));
    forall j | 0 <= j < |b|
      ensures r[j] == b[j]
    {
      if j % 2 == 0 {
        assert j + 1 < |b| && (j + 1) % 2 == 1;
      } else {
        assert (j - 1) % 2 == 0;
      }
    }
  }

  /** Swapping the bytes of UTF-16LE gives UTF-16BE. */
  lemma {:induction false} SwapLittleToBig(u: seq<U16>)
    ensures SwapPairs(UnitsLE(u)) == UnitsBE(u)
  {
    if u != [] {
      SwapPairsAppend(LE16(u[0]), UnitsLE(u[1..]));
      assert SwapPairs(LE16(u[0])) == BE16(u[0]);
      SwapLittleToBig(u[1..]);
    }
  }

  /** Swapping the bytes of UTF-16BE and decoding them as UTF-16LE gives back the code units. */
  lemma BigEndianDecodes(u: seq<U16>)
    ensures UnitsFromLE(SwapPairs(UnitsBE(u))) == u
  {
    SwapLittleToBig(u);
    SwapPairsInvolution(UnitsLE(u));
    UnitsLERoundTrip(u);
  }

  /** The loop itself, in place on the span [lo, hi) of `a` (a `Buffer.slice` view shares its bytes). */
  method SwapBytePairs(a: array<Byte>, lo: int, hi: int)
    requires 0 <= lo <= hi <= a.Length
    modifies a
    ensures a[lo..hi] == SwapPairs(old(a[lo..hi]))
    ensures a[..lo] == old(a[..lo]) && a[hi..] == old(a[hi..])
  {
    ghost var orig := a[..];
    var i := lo;
    while i < hi
      invariant lo <= i <= hi + 1 && (i - lo) % 2 == 0
      invariant forall k | 0 <= k < lo :: a[k] == orig[k]
      invariant forall k | lo <= k < i && k < hi :: a[k] == PairedAt(orig, lo, hi, k)
      invariant forall k | i <= k < a.Length :: a[k] == orig[k]
      invariant forall k | hi <= k < a.Length :: a[k] == orig[k]
    {
      if i + 1 < hi {
        a[i], a[i + 1] := a[i + 1], a[i];
      } else {
        a[i] := 0;        // the write to buffer[i + 1] falls outside the view
      }
      i := i + 2;
    }
    assert a[..lo] == orig[..lo] && a[hi..] == orig[hi..];
    PairedSpan(a[..], orig, lo, hi);
  }

  /** Bytes that hold, position by position, what the swap puts there form the swapped span. */
  lemma PairedSpan(cur: seq<Byte>, orig: seq<Byte>, lo: int, hi: int)
    requires 0 <= lo <= hi <= |orig| == |cur|
    requires forall k | lo <= k < hi :: cur[k] == PairedAt(orig, lo, hi, k)
    ensures cur[lo..hi] == SwapPairs(orig[lo..hi])
  {
    forall j | 0 <= j < hi - lo
      ensures cur[lo..hi][j] == PairedByte(orig[lo..hi], j)
    {
      assert cur[lo + j] == PairedAt(orig, lo, hi, lo + j);
      assert (lo + j - lo) % 2 == j % 2;
    }
  }

  /** `PairedByte` of the span [lo, hi) of `orig`, at the array index k. */
  ghost function PairedAt(orig: seq<Byte>, lo: int, hi: int, k: int): Byte
    requires 0 <= lo <= k < hi <= |orig|
  {
    if (k - lo) % 2 == 0 then (if k + 1 < hi then orig[k + 1] else 0) else orig[k - 1]
  }

  /** `toUTF16LE(str)`: despite its name, the UTF-16BE bytes of `str`. */
  method ToUTF16LE(str: string) returns (r: seq<Byte>)
    ensures r == Utf16BE(str)
  {
    var le := Utf16LE(str);
    var buffer := new Byte[|le|](i requires 0 <= i < |le| => le[i]);
    assert buffer[0..buffer.Length] == le;
    SwapBytePairs(buffer, 0, buffer.Length);
    r := buffer[..];
    assert r == buffer[0..buffer.Length];
    SwapLittleToBig(CodeUnits(str));
  }

  /**
   * `fromUTF16BE(buffer)` on the view [lo, hi) of `a`: the bytes are swapped in
   * place, then read as UTF-16LE; the result is the JavaScript string's code units.
   */
  method FromUTF16BE(a: array<Byte>, lo: int, hi: int) returns (r: seq<U16>)
    requires 0 <= lo <= hi <= a.Length
    modifies a
    ensures a[lo..hi] == SwapPairs(old(a[lo..hi]))
    ensures a[..lo] == old(a[..lo]) && a[hi..] == old(a[hi..])
    ensures r == UnitsFromLE(SwapPairs(old(a[lo..hi])))
  {
    SwapBytePairs(a, lo, hi);
    r := UnitsFromLE(a[lo..hi]);
  }

  /** The plugin channel named in the legacy ping. */
  const PING_HOST: string := "MC|PingHost"

  /** A string of the legacy ping: its length in UTF-16 code units, then its UTF-16BE bytes. */
  function LegacyString(s: string): (r: seq<Byte>)
    requires |CodeUnits(s)| < 0x1_0000
    ensures |r| == 2 + 2 * |CodeUnits(s)|
  {
    BE16(|CodeUnits(s)|) + Utf16BE(s)
  }

  /** The part of the legacy ping that its inner length counts: 00, the host name, the port. */
  function LegacyInner(host: string, port: U32): (r: seq<Byte>)
    requires |CodeUnits(host)| < 0x1_0000
    ensures |r| == 7 + 2 * |CodeUnits(host)|
  {
    [0x00] + LegacyString(host) + BE32(port)
  }

  /**
   * A plugin message of the legacy protocol (packet FA): the channel name, the
   * length of the data, then the data.
   */
  function PluginMessage(channel: string, data: seq<Byte>): (r: seq<Byte>)
    requires |CodeUnits(channel)| < 0x1_0000 && |data| < 0x1_0000
    ensures |r| == 5 + 2 * |CodeUnits(channel)| + |data|
  {
    [0xFA] + LegacyString(channel) + BE16(|data|) + data
  }

  /**
   * The legacy ping: FE 01, then a plugin message on the channel `MC|PingHost`
   * whose data is 00, the host name and the port as an unsigned 32-bit
   * big-endian value.
   */
  function LegacyHandshake(host: string, port: U32): (r: seq<Byte>)
    requires 7 + 2 * |CodeUnits(host)| < 0x1_0000
    ensures |r| == 36 + 2 * |CodeUnits(host)|
  {
    PingHostLength();
    [0xFE, 0x01] + PluginMessage(PING_HOST, LegacyInner(host, port))
  }

  /** The channel name is eleven ASCII characters, 22 bytes in UTF-16BE. */
  lemma PingHostLength()
    ensures |CodeUnits(PING_HOST)| == 11 && |Utf16BE(PING_HOST)| == 22
  {
    assert |PING_HOST| == 11;
    assert IsAscii(PING_HOST);
    AsciiUnitCount(PING_HOST);
  }

  /** `putUShortBE(str.length)` followed by `putBuffer(toUTF16LE(str))`. */
  method PutLegacyString(builder: BufferBuilder, s: string)
    requires |CodeUnits(s)| < 0x1_0000
    modifies builder
    ensures builder.Build() == old(builder.Build()) + LegacyString(s)
  {
    builder.PutUShortBE(|CodeUnits(s)|, false);
    var bytes := ToUTF16LE(s);
    builder.PutBuffer(bytes, false);
  }

  /**
   * `makeLegacyHandshake(host, port)`. The 16-bit writes of the host length and
   * of the inner length, and the 32-bit write of the port, throw when their
   * value does not fit.
   */
  method MakeLegacyHandshake(host: string, port: int) returns (r: Result<seq<Byte>>)
    ensures r.Err? <==> !(0 <= port < TWO_32) || 7 + 2 * |CodeUnits(host)| >= 0x1_0000
    ensures r.Err? ==> r.error == OutOfRange
    ensures r.Ok? ==>
      0 <= port < TWO_32 && 7 + 2 * |CodeUnits(host)| < 0x1_0000 && r.value == LegacyHandshake(host, port)
  {
    var builder := new BufferBuilder();
    builder.PutByte(0xFE, false);
    builder.PutByte(0x01, false);
    builder.PutByte(0xFA, false);
    ghost var start := builder.Build();
    assert start == [0xFE, 0x01, 0xFA];
    PingHostLength();
    PutLegacyString(builder, PING_HOST);

    var inner :- MakeLegacyInner(host, port);
    if |inner| >= 0x1_0000 {
      return Err(OutOfRange);
    }
    builder.PutUShortBE(|inner|, false);
    builder.PutBuffer(inner, false);
    r := Ok(builder.Build());
    PrefixRegroup(LegacyString(PING_HOST), BE16(|inner|), inner);
  }

  lemma PrefixRegroup(x: seq<Byte>, y: seq<Byte>, z: seq<Byte>)
    ensures [0xFE, 0x01] + ([0xFA] + x + y + z) == [0xFE, 0x01, 0xFA] + x + y + z
  {
    assert [0xFE, 0x01] + [0xFA] == [0xFE, 0x01, 0xFA];
  }

  /** The inner builder of `makeLegacyHandshake`: 00, the host name, then the port. */
  method MakeLegacyInner(host: string, port: int) returns (r: Result<seq<Byte>>)
    ensures r.Err? <==> !(0 <= port < TWO_32) || |CodeUnits(host)| >= 0x1_0000
    ensures r.Err? ==> r.error == OutOfRange
    ensures r.Ok? ==> 0 <= port < TWO_32 && |CodeUnits(host)| < 0x1_0000 && r.value == LegacyInner(host, port)
  {
    var innerBuilder := new BufferBuilder();
    innerBuilder.PutByte(0x00, false);
    ghost var zero := innerBuilder.Build();
    assert zero == [0x00];
    if |CodeUnits(host)| >= 0x1_0000 {
      return Err(OutOfRange);
    }
    PutLegacyString(innerBuilder, host);
    if !(0 <= port < TWO_32) {
      return Err(OutOfRange);
    }
    innerBuilder.PutUIntBE(port, false);
    r := Ok(innerBuilder.Build());
  }

  /** A legacy string reads back: the length prefix, then the code units once the pairs are swapped. */
  lemma LegacyStringReads(s: string)
    requires |CodeUnits(s)| < 0x1_0000
    ensures var b := LegacyString(s);
      ReadBE16(b[0], b[1]) == |CodeUnits(s)| && UnitsFromLE(SwapPairs(b[2..])) == CodeUnits(s)
  {
    var b := LegacyString(s);
    assert b[2..] == Utf16BE(s);
    UShortRoundTrip(|CodeUnits(s)|);
    BigEndianDecodes(CodeUnits(s));
  }

  /**
   * A server reads the ping back: after FE 01 comes the plugin message, whose
   * channel is `MC|PingHost` and whose length counts the data after it; the
   * data holds 00, the host name and the port.
   */
  lemma LegacyHandshakeFields(host: string, port: U32)
    requires 7 + 2 * |CodeUnits(host)| < 0x1_0000
    ensures var b, n := LegacyHandshake(host, port), |CodeUnits(host)|;
      |b| == 36 + 2 * n && b[..2] == [0xFE, 0x01]
      && var m := b[2..]; var d := m[27..];
      m[0] == 0xFA && ReadBE16(m[1], m[2]) == 11 && UnitsFromLE(SwapPairs(m[3..25])) == CodeUnits(PING_HOST)
      && ReadBE16(m[25], m[26]) == |d|
      && d[0] == 0 && ReadBE16(d[1], d[2]) == n
      && UnitsFromLE(SwapPairs(d[3..3 + 2 * n])) == CodeUnits(host)
      && ReadBE32(d[3 + 2 * n], d[4 + 2 * n], d[5 + 2 * n], d[6 + 2 * n]) == port
  {
    PingHostLength();
    PingFields(PING_HOST, host, port, LegacyHandshake(host, port));
  }

  /**
   * The same layout for any eleven-unit channel; kept apart from the
   * handshake so that the literal channel name is not unfolded in the proof.
   */
  lemma PingFields(channel: string, host: string, port: U32, b: seq<Byte>)
    requires |CodeUnits(channel)| == 11 && 7 + 2 * |CodeUnits(host)| < 0x1_0000
    requires b == [0xFE, 0x01] + PluginMessage(channel, LegacyInner(host, port))
    ensures var n := |CodeUnits(host)|;
      |b| == 36 + 2 * n && b[..2] == [0xFE, 0x01]
      && var m := b[2..]; var d := m[27..];
      m[0] == 0xFA && ReadBE16(m[1], m[2]) == 11 && UnitsFromLE(SwapPairs(m[3..25])) == CodeUnits(channel)
      && ReadBE16(m[25], m[26]) == |d|
      && d[0] == 0 && ReadBE16(d[1], d[2]) == n
      && UnitsFromLE(SwapPairs(d[3..3 + 2 * n])) == CodeUnits(host)
      && ReadBE32(d[3 + 2 * n], d[4 + 2 * n], d[5 + 2 * n], d[6 + 2 * n]) == port
  {
    var inner := LegacyInner(host, port);
    var m := PluginMessage(channel, inner);
    assert b[..2] == [0xFE, 0x01] && b[2..] == m;
    PluginMessageFields(channel, inner);
    InnerFields(host, port);
  }

  /** Where the parts of a message that starts with a one-byte tag lie. */
  lemma Layout(tag: Byte, x: seq<Byte>, y: seq<Byte>, z: seq<Byte>)
    ensures var s := [tag] + x + y + z;
      s[0] == tag && s[1..1 + |x|] == x && s[1 + |x|..1 + |x| + |y|] == y && s[1 + |x| + |y|..] == z
  {
    var s := [tag] + x + y + z;
    assert s[1..1 + |x|] == x;
    assert s[1 + |x|..1 + |x| + |y|] == y;
  }

  /** The fields of a plugin message, at their offsets within it. */
  lemma PluginMessageFields(channel: string, data: seq<Byte>)
    requires |CodeUnits(channel)| < 0x1_0000 && |data| < 0x1_0000
    ensures var b, c := PluginMessage(channel, data), |CodeUnits(channel)|;
      b[0] == 0xFA && ReadBE16(b[1], b[2]) == c
      && UnitsFromLE(SwapPairs(b[3..3 + 2 * c])) == CodeUnits(channel)
      && ReadBE16(b[3 + 2 * c], b[4 + 2 * c]) == |data| && b[5 + 2 * c..] == data
  {
    var b, c, name := PluginMessage(channel, data), |CodeUnits(channel)|, LegacyString(channel);
    Layout(0xFA, name, BE16(|data|), data);
    LegacyStringReads(channel);
    assert name[2..] == b[3..3 + 2 * c];
    UShortRoundTrip(|data|);
  }

  /** The fields of the inner part, at their offsets within it. */
  lemma InnerFields(host: string, port: U32)
    requires |CodeUnits(host)| < 0x1_0000
    ensures var b, n := LegacyInner(host, port), |CodeUnits(host)|;
      b[0] == 0 && ReadBE16(b[1], b[2]) == n
      && UnitsFromLE(SwapPairs(b[3..3 + 2 * n])) == CodeUnits(host)
      && ReadBE32(b[3 + 2 * n], b[4 + 2 * n], b[5 + 2 * n], b[6 + 2 * n]) == port
  {
    var b, n, name := LegacyInner(host, port), |CodeUnits(host)|, LegacyString(host);
    Layout(0x00, name, BE32(port), []);
    assert b == [0x00] + name + BE32(port) + [];
    LegacyStringReads(host);
    assert name[2..] == b[3..3 + 2 * n];
    UIntRoundTrip(port);
  }

  /** The scan of `readLegacyField` goes past position j: no zero pair starts there, and no read fails. */
  predicate Continues(b: seq<Byte>, j: int)
    requires 0 <= j < |b|
  {
    b[j] != 0 || (j + 1 < |b| && b[j + 1] != 0)
  }

  /**
   * The do-while loop of `readLegacyField` from `end`: the first position at
   * or after it where two zero bytes start, or the end of the buffer. None
   * when a `readUInt8` throws: at `end` itself, or past a zero last byte.
   */
  function FieldScan(b: seq<Byte>, end: int): (r: Option<int>)
    decreases |b| - end
    ensures r.Some? ==> 0 <= end <= r.value <= |b|
    ensures r.Some? && r.value < |b| ==> r.value + 1 < |b| && b[r.value] == 0 && b[r.value + 1] == 0
    ensures r.Some? ==> forall j | end <= j < r.value :: Continues(b, j)
    ensures r.None? <==>
      !(0 <= end < |b|) || (b[|b| - 1] == 0 && forall j | end <= j < |b| - 1 :: Continues(b, j))
  {
    if !(0 <= end < |b|) then None
    else if b[end] == 0 && end + 1 >= |b| then None
    else if b[end] == 0 && b[end + 1] == 0 then assert !Continues(b, end); Some(end)
    else if end + 1 < |b| then FieldScan(b, end + 1)
    else Some(end + 1)
  }

  /** A field of the legacy response and the offset after its terminator. */
  datatype Field = Field(units: seq<U16>, next: int)

  /** What `readLegacyField` returns for the bytes `b` with the reader at `start`. */
  function FieldAt(b: seq<Byte>, start: int): (r: Result<Field>)
    ensures r.Err? ==> r == Err(OutOfRange)
  {
    match FieldScan(b, start)
    case None => Err(OutOfRange)
    case Some(end) => Ok(Field(UnitsFromLE(SwapPairs(b[start..end])), end + 2))
  }

  /**
   * `readLegacyField(reader)`. The slice shares the reader's memory, so the
   * swap of the field's byte pairs stays in the reader's buffer.
   */
  method ReadLegacyField(reader: BufferReader) returns (r: Result<seq<U16>>)
    modifies reader, reader.buffer
    ensures var b, start := old(reader.buffer[..]), old(reader.offset);
      match FieldScan(b, start)
      case None => r == Err(OutOfRange) && reader.offset == start && reader.buffer[..] == b
      case Some(end) =>
        r == Ok(UnitsFromLE(SwapPairs(b[start..end]))) && reader.offset == end + 2
        && reader.buffer[..] == SwappedSpan(b, start, end)
  {
    ghost var b := reader.buffer[..];
    var start := reader.offset;
    var end := start;
    while true
      invariant start <= end && FieldScan(b, start) == FieldScan(b, end)
      invariant start < end ==> end < reader.buffer.Length
      decreases reader.buffer.Length - end
    {
      if !(0 <= end < reader.buffer.Length) {
        return Err(OutOfRange);
      }
      if reader.buffer[end] == 0 {
        if !(end + 1 < reader.buffer.Length) {
          return Err(OutOfRange);
        }
        if reader.buffer[end + 1] == 0 {
          break;
        }
      }
      end := end + 1;
      if !(end < reader.buffer.Length) {
        break;
      }
    }
    assert FieldScan(b, start) == Some(end);
    var previous := reader.Move(end - start + 2);
    assert reader.buffer[..] == b;
    var units := FromUTF16BE(reader.buffer, start, end);
    r := Ok(units);
    SwappedSpanOf(reader.buffer[..], b, start, end);
  }

  /** Bytes that keep `b` outside [lo, hi) and hold the swapped span inside it are `SwappedSpan(b, lo, hi)`. */
  lemma SwappedSpanOf(cur: seq<Byte>, b: seq<Byte>, lo: int, hi: int)
    requires 0 <= lo <= hi <= |b| == |cur|
    requires cur[..lo] == b[..lo] && cur[lo..hi] == SwapPairs(b[lo..hi]) && cur[hi..] == b[hi..]
    ensures cur == SwappedSpan(b, lo, hi)
  {
    Split3(cur, lo, hi);
  }

  /** `b` with the byte pairs of [lo, hi) swapped in place. */
  function SwappedSpan(b: seq<Byte>, lo: int, hi: int): (r: seq<Byte>)
    requires 0 <= lo <= hi <= |b|
    ensures |r| == |b| && r[lo..hi] == SwapPairs(b[lo..hi]) && r[hi..] == b[hi..]
  {
    b[..lo] + SwapPairs(b[lo..hi]) + b[hi..]
  }

  /** `k` moved into [0, n]. */
  function Clamp(k: int, n: nat): (r: nat)
    ensures r <= n && (0 <= k <= n ==> r == k)
  {
    if k < 0 then 0 else if k > n then n else k
  }

  /** The bytes of `b` and `c` agree from position k on (all of them when k is negative). */
  ghost predicate SameFrom(b: seq<Byte>, c: seq<Byte>, k: int)
  {
    |b| == |c| && b[Clamp(k, |b|)..] == c[Clamp(k, |b|)..]
  }

  /** Agreement from k gives agreement at every position from k on. */
  lemma SameAt(b: seq<Byte>, c: seq<Byte>, k: int, j: int)
    requires SameFrom(b, c, k) && k <= j && 0 <= j < |b|
    ensures b[j] == c[j]
  {
    var m := Clamp(k, |b|);
    assert b[j] == b[m..][j - m] && c[j] == c[m..][j - m];
  }

  /** Agreement from k gives agreement from any later position, and on any slice from there. */
  lemma SameLater(b: seq<Byte>, c: seq<Byte>, k: int, k': int)
    requires SameFrom(b, c, k) && k <= k'
    ensures SameFrom(b, c, k')
    ensures forall lo, hi | k <= lo <= hi <= |b| && 0 <= lo :: b[lo..hi] == c[lo..hi]
  {
    var m, m' := Clamp(k, |b|), Clamp(k', |b|);
    assert b[m'..] == b[m..][m' - m..] && c[m'..] == c[m..][m' - m..];
    forall lo, hi | k <= lo <= hi <= |b| && 0 <= lo
      ensures b[lo..hi] == c[lo..hi]
    {
      assert b[lo..hi] == b[m..][lo - m..hi - m] && c[lo..hi] == c[m..][lo - m..hi - m];
    }
  }

  /** Swapping the pairs of [start, end) leaves the bytes from `end` on alone. */
  lemma SwapKeepsTail(b: seq<Byte>, start: int, end: int)
    requires 0 <= start <= end <= |b|
    ensures SameFrom(SwappedSpan(b, start, end), b, end)
  {
  }

  /** The scan from k on reads only the bytes from k on. */
  lemma {:induction false} FieldScanFrame(b: seq<Byte>, c: seq<Byte>, k: int, end: int)
    requires SameFrom(b, c, k) && k <= end
    decreases |b| - end
    ensures FieldScan(b, end) == FieldScan(c, end)
  {
    if 0 <= end < |b| {
      SameAt(b, c, k, end);
      if end + 1 < |b| {
        SameAt(b, c, k, end + 1);
        if !(b[end] == 0 && b[end + 1] == 0) {
          FieldScanFrame(b, c, k, end + 1);
        }
      }
    }
  }

  /** A field at `start` is read the same in two buffers that agree from k <= start on. */
  lemma FieldAtFrame(b: seq<Byte>, c: seq<Byte>, k: int, start: int)
    requires SameFrom(b, c, k) && k <= start
    ensures FieldAt(b, start) == FieldAt(c, start)
  {
    FieldScanFrame(b, c, k, start);
    if FieldScan(b, start).Some? {
      SameLater(b, c, k, start);
    }
  }

  /** The legacy response: the five fields, as UTF-16 code units. */
  datatype LegacyResponse = LegacyResponse(protocol: seq<U16>, name: seq<U16>, motd: seq<U16>, online: seq<U16>, max: seq<U16>)

  /** The five fields read one after the other from `start`. */
  function LegacyFields(p: seq<Byte>, start: int): (r: Result<LegacyResponse>)
    ensures r.Err? ==> r == Err(OutOfRange)
  {
    var protocol :- FieldAt(p, start);
    var name :- FieldAt(p, protocol.next);
    var motd :- FieldAt(p, name.next);
    var online :- FieldAt(p, motd.next);
    var max :- FieldAt(p, online.next);
    Ok(LegacyResponse(protocol.units, name.units, motd.units, online.units, max.units))
  }

  /**
   * The buffer and the offset after up to `n` `readLegacyField` calls from
   * `start`, each scanning the buffer as the earlier swaps left it; the first
   * call that throws leaves both as they were and ends the sequence.
   */
  function AfterFields(b: seq<Byte>, start: int, n: nat): (r: (seq<Byte>, int))
    decreases n
    ensures |r.0| == |b| && start <= r.1
  {
    if n == 0 then (b, start)
    else match FieldScan(b, start)
      case None => (b, start)
      case Some(end) => AfterFields(SwappedSpan(b, start, end), end + 2, n - 1)
  }

  /**
   * The five `readLegacyField` calls of `readLegacyResponse`, in order; each
   * reads the buffer as the swaps of the earlier ones left it, which changes
   * nothing past their terminators.
   */
  method ReadLegacyFields(reader: BufferReader) returns (r: Result<LegacyResponse>)
    modifies reader, reader.buffer
    ensures r == LegacyFields(old(reader.buffer[..]), old(reader.offset))
    ensures (reader.buffer[..], reader.offset) == AfterFields(old(reader.buffer[..]), old(reader.offset), 5)
  {
    ghost var p, n := reader.buffer[..], 5;
    ghost var goal := AfterFields(p, reader.offset, n);
    var protocol :- ReadFieldOf(reader, p, reader.offset, n, goal);
    var name :- ReadFieldOf(reader, p, reader.offset - 2, n - 1, goal);
    var motd :- ReadFieldOf(reader, p, reader.offset - 2, n - 2, goal);
    var online :- ReadFieldOf(reader, p, reader.offset - 2, n - 3, goal);
    var max :- ReadFieldOf(reader, p, reader.offset - 2, n - 4, goal);
    r := Ok(LegacyResponse(protocol, name, motd, online, max));
  }

  /**
   * `readLegacyField(reader)` on a buffer that agrees with the payload `p`
   * from k on, k at most the offset: the earlier fields' swaps lie before k.
   */
  method ReadFieldOf(reader: BufferReader, ghost p: seq<Byte>, ghost k: int, ghost n: nat, ghost goal: (seq<Byte>, int))
    returns (r: Result<seq<U16>>)
    requires k <= reader.offset && SameFrom(reader.buffer[..], p, k)
    requires n > 0 && AfterFields(reader.buffer[..], reader.offset, n) == goal
    modifies reader, reader.buffer
    ensures r.Ok? ==> AfterFields(reader.buffer[..], reader.offset, n - 1) == goal
    ensures r.Err? ==> (reader.buffer[..], reader.offset) == goal
    ensures r.Ok? ==>
      FieldAt(p, old(reader.offset)) == Ok(Field(r.value, reader.offset)) && SameFrom(reader.buffer[..], p, reader.offset - 2)
    ensures r.Err? ==> r == Err(OutOfRange) && FieldAt(p, old(reader.offset)) == Err(OutOfRange)
  {
    ghost var before, start := reader.buffer[..], reader.offset;
    FieldAtFrame(before, p, k, start);
    r := ReadLegacyField(reader);
    FieldOfStep(before, reader.buffer[..], p, k, start, reader.offset, r);
  }

  /** One field read, restated against the payload `p`. */
  lemma FieldOfStep(before: seq<Byte>, after: seq<Byte>, p: seq<Byte>, k: int, start: int, offset: int, r: Result<seq<U16>>)
    requires match FieldScan(before, start)
      case None => r == Err(OutOfRange) && offset == start && after == before
      case Some(end) =>
        r == Ok(UnitsFromLE(SwapPairs(before[start..end]))) && offset == end + 2
        && after == SwappedSpan(before, start, end)
    requires SameFrom(before, p, k) && k <= start && FieldAt(before, start) == FieldAt(p, start)
    ensures r.Ok? ==> FieldAt(p, start) == Ok(Field(r.value, offset)) && SameFrom(after, p, offset - 2)
    ensures r.Err? ==> r == Err(OutOfRange) && FieldAt(p, start) == Err(OutOfRange)
  {
    match FieldScan(before, start)
    case None =>
    case Some(end) =>
      FieldAtSome(before, start, end);
      SwapKeepsTail(before, start, end);
      SameLater(before, p, k, end);
      SameTrans(after, before, p, end);
  }

  /** The field a successful scan delimits. */
  lemma FieldAtSome(b: seq<Byte>, start: int, end: int)
    requires FieldScan(b, start) == Some(end)
    ensures FieldAt(b, start) == Ok(Field(UnitsFromLE(SwapPairs(b[start..end])), end + 2))
  {
  }

  /** Agreement from k is transitive. */
  lemma SameTrans(a: seq<Byte>, b: seq<Byte>, c: seq<Byte>, k: int)
    requires SameFrom(a, b, k) && SameFrom(b, c, k)
    ensures SameFrom(a, c, k)
  {
  }

  /**
   * `readLegacyResponse` on the bytes `s` that the peer sends: a header of
   * three bytes (FF, then the payload's length in code units, big-endian),
   * then the payload, whose first six bytes are skipped before the five
   * fields. A stream that ends early is a closed connection.
   */
  function LegacyStream(s: seq<Byte>): (r: Result<LegacyResponse>)
    ensures r == Err(InvalidPacket) <==> 3 <= |s| && s[0] != 0xFF
    ensures r.Ok? ==> 3 <= |s| && s[0] == 0xFF && 3 + 2 * ReadBE16(s[1], s[2]) <= |s|
  {
    if |s| < 3 then Err(StreamClosed)
    else if s[0] != 0xFF then Err(InvalidPacket)
    else
      var size := 2 * ReadBE16(s[1], s[2]);
      if |s| < 3 + size then Err(StreamClosed)
      else LegacyFields(s[3..3 + size], 6)
  }

  /**
   * `readLegacyResponse(socket)`: the header through `read(3)`, then the
   * payload through `read(length * 2)`, then the five fields. The peer's
   * chunks arrive as `incoming`; `rest` is what it sent that was not read.
   */
  method ReadLegacyResponse(socket: SocketWrapper, incoming: seq<seq<Byte>>) returns (r: Result<LegacyResponse>, rest: seq<seq<Byte>>)
    requires socket.Valid() && socket.bytesToRead == 0
    modifies socket
    ensures socket.Valid()
    ensures r == LegacyStream(old(socket.buffer) + Concat(incoming))
    ensures var s := old(socket.buffer) + Concat(incoming);
      3 <= |s| && s[0] != 0xFF ==>
        socket.bytesToRead == 0 && socket.received && socket.buffer + Concat(rest) == s[3..]
    ensures var s := old(socket.buffer) + Concat(incoming);
      3 <= |s| && s[0] == 0xFF && 3 + 2 * ReadBE16(s[1], s[2]) <= |s| ==>
        socket.bytesToRead == 0 && socket.received
        && socket.buffer + Concat(rest) == s[3 + 2 * ReadBE16(s[1], s[2])..]
    ensures var s := old(socket.buffer) + Concat(incoming);
      |s| < 3 ==>
        socket.buffer == s && socket.bytesToRead == 3 && rest == []
        && (socket.received <==> old(socket.received) || incoming != [])
    ensures var s := old(socket.buffer) + Concat(incoming);
      3 <= |s| && s[0] == 0xFF && 3 + 2 * ReadBE16(s[1], s[2]) > |s| ==>
        socket.buffer == s[3..] && socket.bytesToRead == 2 * ReadBE16(s[1], s[2]) && socket.received && rest == []
  {
    ghost var s := socket.buffer + Concat(incoming);
    var head;
    head, rest := socket.AwaitRead(3, incoming);
    if head.Err? {
      return Err(StreamClosed), rest;
    }
    ghost var held, tail := socket.buffer, Concat(rest);
    assert head.value == s[..3] && held + tail == s[3..];
    var length := ReadLegacyHeader(head.value);
    if length.Err? {
      return Err(InvalidPacket), rest;
    }
    var payload;
    payload, rest := socket.AwaitRead((length.value as int) * 2, rest);
    if payload.Err? {
      return Err(StreamClosed), rest;
    }
    PayloadTaken(s, held, tail, (length.value as int) * 2, payload.value, socket.buffer + Concat(rest));
    r := ReadLegacyPayload(payload.value);
  }

  /**
   * What `read(size)` takes after the header and what it leaves: the payload
   * bytes of the stream and the bytes after them, with `read(0)` served from
   * the buffer.
   */
  lemma PayloadTaken(s: seq<Byte>, held: seq<Byte>, tail: seq<Byte>, size: int, data: seq<Byte>, left: seq<Byte>)
    requires 3 <= |s| && held + tail == s[3..] && 0 <= size
    requires size == 0 ==> data == JsSlice(held, 0, 0) && left == JsSlice(held, 0, |held|) + tail
    requires 0 < size <= |held + tail| ==> data == (held + tail)[..size] && left == (held + tail)[size..]
    requires size <= |held + tail|
    ensures data == s[3..3 + size] && left == s[3 + size..]
  {
    if size == 0 {
      assert JsSlice(held, 0, |held|) == held;
    }
  }

  /** The header of `readLegacyResponse`, read through a `BufferReader`: the length, or "Invalid packet". */
  method ReadLegacyHeader(head: seq<Byte>) returns (r: Result<U16>)
    requires |head| == 3
    ensures r == if head[0] == 0xFF then Ok(ReadBE16(head[1], head[2])) else Err(InvalidPacket)
  {
    var bytes := ToArray(head);
    var header := new BufferReader(bytes);
    var id := header.ReadByte();
    if id != Ok(0xFF) {
      return Err(InvalidPacket);
    }
    r := header.ReadUInt16BE();
  }

  /** The payload of `readLegacyResponse`: six bytes skipped, then the five fields. */
  method ReadLegacyPayload(payload: seq<Byte>) returns (r: Result<LegacyResponse>)
    ensures r == LegacyFields(payload, 6)
  {
    var bytes := ToArray(payload);
    var reader := new BufferReader(bytes);
    var skipped := reader.ReadBytes(6);
    r := ReadLegacyFields(reader);
  }

  /** No code unit of `u` has a zero low byte. */
  predicate LowBytesNonZero(u: seq<U16>)
  {
    forall i | 0 <= i < |u| :: u[i] % 0x100 != 0
  }

  /**
   * Fields the byte scan of `readLegacyField` splits as they were joined:
   * no zero low byte (so no zero pair starts inside a field or at its last
   * byte), and a last field that is not empty (its scan would start past the
   * end of the buffer).
   */
  predicate Separable(fs: seq<seq<U16>>)
  {
    fs != [] && fs[|fs| - 1] != [] && forall i | 0 <= i < |fs| :: LowBytesNonZero(fs[i])
  }

  /** The fields in UTF-16BE, with a zero code unit between consecutive ones. */
  function JoinFields(fs: seq<seq<U16>>): (r: seq<Byte>)
    requires fs != []
    ensures |r| % 2 == 0
  {
    if |fs| == 1 then UnitsBE(fs[0]) else UnitsBE(fs[0]) + ([0, 0] + JoinFields(fs[1..]))
  }

  /** The fields of a response, in the order the client reads them. */
  function FieldList(resp: LegacyResponse): seq<seq<U16>>
  {
    [resp.protocol, resp.name, resp.motd, resp.online, resp.max]
  }

  /** A server's legacy response: FF, the payload's length in code units, the payload. */
  function LegacyResponseBytes(prefix: seq<Byte>, resp: LegacyResponse): (r: seq<Byte>)
    requires |prefix + JoinFields(FieldList(resp))| < 0x2_0000
    ensures |r| == 3 + |prefix + JoinFields(FieldList(resp))|
  {
    var p := prefix + JoinFields(FieldList(resp));
    [0xFF] + BE16(|p| / 2) + p
  }

  /**
   * The scan finds `end` when every position before it lets the scan go on
   * and `end` starts a zero pair or is the end of a buffer that the scan
   * entered.
   */
  lemma ScanStops(b: seq<Byte>, start: int, end: int)
    requires 0 <= start <= end <= |b|
    requires forall j | start <= j < end :: Continues(b, j)
    requires end < |b| ==> end + 1 < |b| && b[end] == 0 && b[end + 1] == 0
    requires end == |b| ==> start < end
    ensures FieldScan(b, start) == Some(end)
  {
    if end < |b| {
      assert !Continues(b, end);
    } else {
      assert Continues(b, |b| - 1);
    }
    forall v | start <= v < end
      ensures !(v + 1 < |b| && b[v] == 0 && b[v + 1] == 0)
    {
      assert Continues(b, v);
    }
  }

  /**
   * The UTF-16BE bytes of units with no zero low byte: the scan goes on at
   * every one of them, and swapping the pairs gives back the units.
   */
  lemma {:induction false} UnitsContinue(w: seq<Byte>, f: seq<U16>)
    requires w == UnitsBE(f) && LowBytesNonZero(f)
    decreases |f|
    ensures |w| == 2 * |f| && UnitsFromLE(SwapPairs(w)) == f
    ensures forall j | 0 <= j < |w| :: Continues(w, j)
  {
    BigEndianDecodes(f);
    if f != [] {
      var t := UnitsBE(f[1..]);
      assert w == BE16(f[0]) + t;
      assert LowBytesNonZero(f[1..]) by {
        assert forall i | 0 <= i < |f[1..]| :: f[1..][i] == f[i + 1];
      }
      UnitsContinue(t, f[1..]);
      assert w[1] == f[0] % 0x100 != 0;
      forall j | 2 <= j < |w|
        ensures Continues(w, j)
      {
        assert Continues(t, j - 2);
        assert w[j] == t[j - 2];
        if j + 1 < |w| {
          assert w[j + 1] == t[j - 1];
        }
      }
      assert Continues(w, 0) && Continues(w, 1);
    }
  }

  /** Positions where the scan goes on inside `w` are positions where it goes on in a buffer holding `w` at `o`. */
  lemma ContinuesWithin(b: seq<Byte>, o: int, w: seq<Byte>)
    requires 0 <= o && o + |w| <= |b| && b[o..o + |w|] == w
    requires forall j | 0 <= j < |w| :: Continues(w, j)
    ensures forall j | o <= j < o + |w| :: Continues(b, j)
  {
    forall j | o <= j < o + |w|
      ensures Continues(b, j)
    {
      assert Continues(w, j - o);
      assert b[j] == w[j - o];
      if j + 1 < o + |w| {
        assert b[j + 1] == w[j - o + 1];
      }
    }
  }

  /**
   * A field at `o` whose bytes `w` let the scan go on throughout, followed by
   * a zero pair or by the end of the buffer, reads back as the units `f`
   * that `w` swaps back to.
   */
  lemma FieldIn(b: seq<Byte>, o: int, w: seq<Byte>, f: seq<U16>)
    requires 0 <= o && o + |w| <= |b| && b[o..o + |w|] == w
    requires (forall j | 0 <= j < |w| :: Continues(w, j)) && UnitsFromLE(SwapPairs(w)) == f
    requires o + |w| == |b| ==> w != []
    requires o + |w| < |b| ==> o + |w| + 1 < |b| && b[o + |w|] == 0 && b[o + |w| + 1] == 0
    ensures FieldAt(b, o) == Ok(Field(f, o + |w| + 2))
  {
    ContinuesWithin(b, o, w);
    ScanStops(b, o, o + |w|);
    FieldAtSome(b, o, o + |w|);
  }

  /** Where a field, its separator and the fields after it lie in a buffer. */
  lemma SplitJoined(p: seq<Byte>, o: int, w: seq<Byte>, t: seq<Byte>)
    requires 0 <= o <= |p| && p[o..] == w + ([0, 0] + t)
    ensures o + |w| + 2 <= |p| && p[o..o + |w|] == w && p[o + |w|] == 0 && p[o + |w| + 1] == 0
    ensures p[o + |w| + 2..] == t
  {
    assert p[o..o + |w|] == p[o..][..|w|];
    assert p[o + |w|] == p[o..][|w|] && p[o + |w| + 1] == p[o..][|w| + 1];
    assert p[o + |w| + 2..] == p[o..][|w| + 2..];
  }

  /** The first of the joined fields at `o` reads back, and the others follow its separator. */
  lemma FirstField(p: seq<Byte>, o: int, fs: seq<seq<U16>>)
    requires Separable(fs) && 0 <= o <= |p| && p[o..] == JoinFields(fs)
    ensures FieldAt(p, o) == Ok(Field(fs[0], o + 2 * |fs[0]| + 2))
    ensures |fs| > 1 ==>
      o + 2 * |fs[0]| + 2 <= |p| && p[o + 2 * |fs[0]| + 2..] == JoinFields(fs[1..]) && Separable(fs[1..])
  {
    var w := UnitsBE(fs[0]);
    assert |w| == 2 * |fs[0]| && (forall j | 0 <= j < |w| :: Continues(w, j)) && UnitsFromLE(SwapPairs(w)) == fs[0] by {
      assert LowBytesNonZero(fs[0]);
      UnitsContinue(w, fs[0]);
    }
    if |fs| == 1 {
      assert w != [] && p[o..] == w;
      FieldLast(p, o, w, fs[0]);
    } else {
      var t := JoinFields(fs[1..]);
      assert p[o..] == w + ([0, 0] + t);
      FieldBefore(p, o, w, fs[0], t);
      SeparableTail(fs);
    }
  }

  /** The last field, running to the end of the buffer, reads back. */
  lemma FieldLast(p: seq<Byte>, o: int, w: seq<Byte>, f: seq<U16>)
    requires 0 <= o <= |p| && p[o..] == w && w != []
    requires (forall j | 0 <= j < |w| :: Continues(w, j)) && UnitsFromLE(SwapPairs(w)) == f
    ensures FieldAt(p, o) == Ok(Field(f, o + |w| + 2))
  {
    assert p[o..o + |w|] == w;
    FieldIn(p, o, w, f);
  }

  /** A field followed by `00 00` and the bytes `t` reads back, and `t` follows it. */
  lemma FieldBefore(p: seq<Byte>, o: int, w: seq<Byte>, f: seq<U16>, t: seq<Byte>)
    requires 0 <= o <= |p| && p[o..] == w + ([0, 0] + t)
    requires (forall j | 0 <= j < |w| :: Continues(w, j)) && UnitsFromLE(SwapPairs(w)) == f
    ensures FieldAt(p, o) == Ok(Field(f, o + |w| + 2))
    ensures o + |w| + 2 <= |p| && p[o + |w| + 2..] == t
  {
    SplitJoined(p, o, w, t);
    FieldIn(p, o, w, f);
  }

  /** The fields after the first are separable too. */
  lemma SeparableTail(fs: seq<seq<U16>>)
    requires Separable(fs) && |fs| > 1
    ensures Separable(fs[1..])
  {
    assert fs[1..][|fs[1..]| - 1] == fs[|fs| - 1];
    assert forall i | 0 <= i < |fs[1..]| :: fs[1..][i] == fs[i + 1];
  }

  /** The five fields of a payload built from a response read back as that response. */
  lemma LegacyFieldsRoundTrip(prefix: seq<Byte>, resp: LegacyResponse)
    requires |prefix| == 6 && Separable(FieldList(resp))
    ensures LegacyFields(prefix + JoinFields(FieldList(resp)), 6) == Ok(resp)
  {
    var p := prefix + JoinFields(FieldList(resp));
    assert p[6..] == JoinFields(FieldList(resp));
    var o2 := FieldsFrom(p, 6, FieldList(resp));
    var o3 := FieldsFrom(p, o2, [resp.name, resp.motd, resp.online, resp.max]);
    var o4 := FieldsFrom(p, o3, [resp.motd, resp.online, resp.max]);
    var o5 := FieldsFrom(p, o4, [resp.online, resp.max]);
    FirstField(p, o5, [resp.max]);
  }

  /** `FirstField`, with the rest of the list spelled out and the next offset returned. */
  lemma FieldsFrom(p: seq<Byte>, o: int, fs: seq<seq<U16>>) returns (next: int)
    requires Separable(fs) && |fs| > 1 && 0 <= o <= |p| && p[o..] == JoinFields(fs)
    ensures next == o + 2 * |fs[0]| + 2 && FieldAt(p, o) == Ok(Field(fs[0], next))
    ensures Separable(fs[1..]) && 0 <= next <= |p| && p[next..] == JoinFields(fs[1..])
  {
    FirstField(p, o, fs);
    next := o + 2 * |fs[0]| + 2;
  }

  /** What a server sends is read back as the response it encodes, whatever follows it. */
  lemma LegacyStreamRoundTrip(prefix: seq<Byte>, resp: LegacyResponse, rest: seq<Byte>)
    requires |prefix| == 6 && Separable(FieldList(resp))
    requires |prefix + JoinFields(FieldList(resp))| < 0x2_0000
    ensures LegacyStream(LegacyResponseBytes(prefix, resp) + rest) == Ok(resp)
  {
    var p := prefix + JoinFields(FieldList(resp));
    LegacyStreamOf(p, rest);
    LegacyFieldsRoundTrip(prefix, resp);
  }

  /** A response cut short anywhere is a closed connection. */
  lemma LegacyStreamTruncated(prefix: seq<Byte>, resp: LegacyResponse, k: int)
    requires |prefix| == 6 && |prefix + JoinFields(FieldList(resp))| < 0x2_0000
    requires 0 <= k < |LegacyResponseBytes(prefix, resp)|
    ensures LegacyStream(LegacyResponseBytes(prefix, resp)[..k]) == Err(StreamClosed)
  {
    LegacyStreamCut(prefix + JoinFields(FieldList(resp)), k);
  }

  /** The stream of a framed payload, followed by anything, is read as the payload's fields. */
  lemma LegacyStreamOf(p: seq<Byte>, rest: seq<Byte>)
    requires |p| % 2 == 0 && |p| < 0x2_0000
    ensures LegacyStream([0xFF] + BE16(|p| / 2) + p + rest) == LegacyFields(p, 6)
  {
    var s := [0xFF] + BE16(|p| / 2) + p + rest;
    UShortRoundTrip(|p| / 2);
    assert s[0] == 0xFF && ReadBE16(s[1], s[2]) == |p| / 2;
    assert s[3..3 + |p|] == p;
  }

  /** A framed payload cut short is a closed connection. */
  lemma LegacyStreamCut(p: seq<Byte>, k: int)
    requires |p| % 2 == 0 && |p| < 0x2_0000 && 0 <= k < 3 + |p|
    ensures LegacyStream(([0xFF] + BE16(|p| / 2) + p)[..k]) == Err(StreamClosed)
  {
    var s := [0xFF] + BE16(|p| / 2) + p;
    if k >= 3 {
      UShortRoundTrip(|p| / 2);
      assert s[..k][0] == 0xFF && s[..k][1] == s[1] && s[..k][2] == s[2];
    }
  }

  /**
   * The field scan as evidently intended: code unit by code unit from the
   * field's start up to the first zero unit, or to the end of the buffer.
   */
  function AlignedScan(b: seq<Byte>, end: int): (r: int)
    requires 0 <= end <= |b|
    decreases |b| - end
    ensures end <= r <= |b|
  {
    if end + 1 >= |b| then |b|
    else if b[end] == 0 && b[end + 1] == 0 then end
    else AlignedScan(b, end + 2)
  }

  /** The field at `start` with the aligned scan; reading at or past the end fails as before. */
  function AlignedFieldAt(b: seq<Byte>, start: int): (r: Result<Field>)
    ensures r.Err? <==> !(0 <= start < |b|)
  {
    if !(0 <= start < |b|) then Err(OutOfRange)
    else
      var end := AlignedScan(b, start);
      Ok(Field(UnitsFromLE(SwapPairs(b[start..end])), end + 2))
  }

  /** No code unit of `u` is zero. */
  predicate UnitsNonZero(u: seq<U16>)
  {
    forall i | 0 <= i < |u| :: u[i] != 0
  }

  /** Two zero bytes start at position j. */
  predicate ZeroPairAt(w: seq<Byte>, j: int)
    requires 0 <= j
  {
    j + 1 < |w| && w[j] == 0 && w[j + 1] == 0
  }

  /** No aligned pair of `w` is a zero unit. */
  predicate NoZeroUnit(w: seq<Byte>)
  {
    |w| % 2 == 0 && forall j | 0 <= j < |w| && j % 2 == 0 :: !ZeroPairAt(w, j)
  }

  /** The UTF-16BE bytes of units that are not zero hold no zero unit. */
  lemma {:induction false} UnitsNoZeroUnit(w: seq<Byte>, f: seq<U16>)
    requires w == UnitsBE(f) && UnitsNonZero(f)
    decreases |f|
    ensures NoZeroUnit(w)
  {
    if f != [] {
      var t := UnitsBE(f[1..]);
      assert w == BE16(f[0]) + t;
      assert UnitsNonZero(f[1..]) by {
        assert forall i | 0 <= i < |f[1..]| :: f[1..][i] == f[i + 1];
      }
      UnitsNoZeroUnit(t, f[1..]);
      forall j | 0 <= j < |w| && j % 2 == 0
        ensures !ZeroPairAt(w, j)
      {
        if j >= 2 {
          assert w[j] == t[j - 2] && w[j + 1] == t[j - 1];
          assert !ZeroPairAt(t, j - 2);
        }
      }
    }
  }

  /** The aligned scan from `o` stops at the first zero unit after a span holding none. */
  lemma {:induction false} AlignedStops(b: seq<Byte>, o: int, w: seq<Byte>)
    requires 0 <= o && o + |w| <= |b| && b[o..o + |w|] == w && NoZeroUnit(w)
    requires o + |w| < |b| ==> o + |w| + 1 < |b| && b[o + |w|] == 0 && b[o + |w| + 1] == 0
    decreases |w|
    ensures AlignedScan(b, o) == o + |w|
  {
    if w != [] {
      assert b[o] == w[0] && b[o + 1] == w[1];
      assert b[o + 2..o + |w|] == w[2..];
      assert !ZeroPairAt(w, 0);
      assert NoZeroUnit(w[2..]) by {
        forall j | 0 <= j < |w[2..]| && j % 2 == 0
          ensures !ZeroPairAt(w[2..], j)
        {
          assert !ZeroPairAt(w, j + 2);
        }
      }
      AlignedStops(b, o + 2, w[2..]);
    }
  }

  /**
   * Fields the aligned scan splits as they were joined: no zero code unit,
   * and a last field that is not empty.
   */
  predicate AlignedSeparable(fs: seq<seq<U16>>)
  {
    fs != [] && fs[|fs| - 1] != [] && forall i | 0 <= i < |fs| :: UnitsNonZero(fs[i])
  }

  /**
   * With the aligned scan, the first of the joined fields at `o` reads back
   * as long as no unit is zero, and the others follow its separator.
   */
  lemma AlignedFirstField(p: seq<Byte>, o: int, fs: seq<seq<U16>>)
    requires AlignedSeparable(fs) && 0 <= o <= |p| && p[o..] == JoinFields(fs)
    ensures AlignedFieldAt(p, o) == Ok(Field(fs[0], o + 2 * |fs[0]| + 2))
    ensures |fs| > 1 ==>
      o + 2 * |fs[0]| + 2 <= |p| && p[o + 2 * |fs[0]| + 2..] == JoinFields(fs[1..]) && AlignedSeparable(fs[1..])
  {
    var w := UnitsBE(fs[0]);
    assert |w| == 2 * |fs[0]| && NoZeroUnit(w) && UnitsFromLE(SwapPairs(w)) == fs[0] by {
      assert UnitsNonZero(fs[0]);
      UnitsNoZeroUnit(w, fs[0]);
      BigEndianDecodes(fs[0]);
    }
    if |fs| == 1 {
      assert w != [] && p[o..] == w;
      AlignedFieldLast(p, o, w, fs[0]);
    } else {
      var t := JoinFields(fs[1..]);
      assert p[o..] == w + ([0, 0] + t);
      AlignedFieldBefore(p, o, w, fs[0], t);
      AlignedSeparableTail(fs);
    }
  }

  /** With the aligned scan, the last field, running to the end of the buffer, reads back. */
  lemma AlignedFieldLast(p: seq<Byte>, o: int, w: seq<Byte>, f: seq<U16>)
    requires 0 <= o <= |p| && p[o..] == w && w != []
    requires NoZeroUnit(w) && UnitsFromLE(SwapPairs(w)) == f
    ensures AlignedFieldAt(p, o) == Ok(Field(f, o + |w| + 2))
  {
    assert p[o..o + |w|] == w;
    AlignedFieldIn(p, o, o + |w|, w, f);
  }

  /** With the aligned scan, a field followed by a zero unit and the bytes `t` reads back, and `t` follows it. */
  lemma AlignedFieldBefore(p: seq<Byte>, o: int, w: seq<Byte>, f: seq<U16>, t: seq<Byte>)
    requires 0 <= o <= |p| && p[o..] == w + ([0, 0] + t)
    requires NoZeroUnit(w) && UnitsFromLE(SwapPairs(w)) == f
    ensures AlignedFieldAt(p, o) == Ok(Field(f, o + |w| + 2))
    ensures o + |w| + 2 <= |p| && p[o + |w| + 2..] == t
  {
    SplitJoined(p, o, w, t);
    AlignedFieldIn(p, o, o + |w|, w, f);
  }

  /** The fields after the first are separable for the aligned scan too. */
  lemma AlignedSeparableTail(fs: seq<seq<U16>>)
    requires AlignedSeparable(fs) && |fs| > 1
    ensures AlignedSeparable(fs[1..])
  {
    assert fs[1..][|fs[1..]| - 1] == fs[|fs| - 1];
    assert forall i | 0 <= i < |fs[1..]| :: fs[1..][i] == fs[i + 1];
  }

  /** A field at `o` whose bytes `w` hold no zero unit, followed by a zero unit or by the end, reads back. */
  lemma AlignedFieldIn(b: seq<Byte>, o: int, e: int, w: seq<Byte>, f: seq<U16>)
    requires 0 <= o <= e <= |b| && e == o + |w| && b[o..e] == w && NoZeroUnit(w) && UnitsFromLE(SwapPairs(w)) == f
    requires e == |b| ==> w != []
    requires e < |b| ==> e + 1 < |b| && b[e] == 0 && b[e + 1] == 0
    ensures AlignedFieldAt(b, o) == Ok(Field(f, e + 2))
  {
    AlignedStops(b, o, w);
  }

  /** The five fields read with the aligned scan. */
  function AlignedLegacyFields(p: seq<Byte>, start: int): (r: Result<LegacyResponse>)
    ensures r.Err? ==> r == Err(OutOfRange)
  {
    var protocol :- AlignedFieldAt(p, start);
    var name :- AlignedFieldAt(p, protocol.next);
    var motd :- AlignedFieldAt(p, name.next);
    var online :- AlignedFieldAt(p, motd.next);
    var max :- AlignedFieldAt(p, online.next);
    Ok(LegacyResponse(protocol.units, name.units, motd.units, online.units, max.units))
  }

  /** With the aligned scan, five joined fields with no zero unit (the last non-empty) read back. */
  lemma AlignedFieldsRoundTrip(prefix: seq<Byte>, resp: LegacyResponse)
    requires |prefix| == 6 && AlignedSeparable(FieldList(resp))
    ensures AlignedLegacyFields(prefix + JoinFields(FieldList(resp)), 6) == Ok(resp)
  {
    var p := prefix + JoinFields(FieldList(resp));
    assert p[6..] == JoinFields(FieldList(resp));
    var o2 := AlignedFieldsFrom(p, 6, FieldList(resp));
    var o3 := AlignedFieldsFrom(p, o2, [resp.name, resp.motd, resp.online, resp.max]);
    var o4 := AlignedFieldsFrom(p, o3, [resp.motd, resp.online, resp.max]);
    var o5 := AlignedFieldsFrom(p, o4, [resp.online, resp.max]);
    AlignedFirstField(p, o5, [resp.max]);
  }

  /** `AlignedFirstField`, with the rest of the list spelled out and the next offset returned. */
  lemma AlignedFieldsFrom(p: seq<Byte>, o: int, fs: seq<seq<U16>>) returns (next: int)
    requires AlignedSeparable(fs) && |fs| > 1 && 0 <= o <= |p| && p[o..] == JoinFields(fs)
    ensures next == o + 2 * |fs[0]| + 2 && AlignedFieldAt(p, o) == Ok(Field(fs[0], next))
    ensures AlignedSeparable(fs[1..]) && 0 <= next <= |p| && p[next..] == JoinFields(fs[1..])
  {
    AlignedFirstField(p, o, fs);
    next := o + 2 * |fs[0]| + 2;
  }

  /**
   * The byte scan stops at a zero pair that straddles two units: U+4E00
   * followed by "a" is 4E 00 00 61, and the field reads as empty, ending
   * one byte into the text. The aligned scan reads both units.
   */
  lemma MisalignedSeparator()
    ensures var b: seq<Byte> := [0x4E, 0x00, 0x00, 0x61, 0x00, 0x00, 0x00, 0x31];
      b == UnitsBE([0x4E00, 0x61]) + [0, 0] + UnitsBE([0x31])
      && FieldAt(b, 0) == Ok(Field([], 3))
      && AlignedFieldAt(b, 0) == Ok(Field([0x4E00, 0x61], 6))
  {
    var b: seq<Byte> := [0x4E, 0x00, 0x00, 0x61, 0x00, 0x00, 0x00, 0x31];
    assert UnitsBE([0x4E00, 0x61]) == [0x4E, 0x00, 0x00, 0x61];
    assert FieldScan(b, 0) == FieldScan(b, 1) == Some(1);
    assert UnitsFromLE(SwapPairs(b[0..1])) == UnitsFromLE([0]) == [];
    assert AlignedScan(b, 0) == AlignedScan(b, 2) == AlignedScan(b, 4) == 4;
    assert SwapPairs(b[0..4]) == [0x00, 0x4E, 0x61, 0x00];
    assert UnitsFromLE([0x00, 0x4E, 0x61, 0x00]) == [0x4E00, 0x61];
  }
}
