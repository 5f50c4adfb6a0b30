/**
 * protocol-types.js: the span builder that encodes requests, the cursor that
 * decodes responses, and the buffering state machine between the socket's
 * data/close events and `read(n)` requests.
 */
module ProtocolTypes {
  import opened Bytes
  import opened Text
  import opened Wrappers
  import opened VarInt

  /** The span list after `putBuffer(span, start)`: before every span when `start`, else after. */
  function Placed(spans: seq<seq<Byte>>, span: seq<Byte>, start: bool): seq<seq<Byte>>
  {
    if start then [span] + spans else spans + [span]
  }

  /** What `build()` then returns, given what it returned before. */
  function Joined(built: seq<Byte>, span: seq<Byte>, start: bool): seq<Byte>
  {
    if start then span + built else built + span
  }

  /** The bytes `putString(s)` emits: a VarInt of `s.length` (UTF-16 code units), then the UTF-8 bytes. */
  function StringBytes(s: string): seq<Byte>
  {
    Encode(|CodeUnits(s)|) + Utf8(s)
  }

  /**
   * A string as a peer that counts UTF-8 bytes frames it: a VarInt of the
   * UTF-8 length, then the UTF-8 bytes. It agrees with `putString`'s bytes on
   * ASCII text.
   */
  function ServerStringBytes(s: string): seq<Byte>
  {
    Encode(|Utf8(s)|) + Utf8(s)
  }

  /**
   * What `readString()` returns from a reader at `offset` over `s`: the VarInt
   * length, then that many bytes as `Buffer.slice` clamps them.
   */
  function StringAt(s: seq<Byte>, offset: int): (r: Result<seq<Byte>>)
    ensures Decode(TailFrom(s, offset)).None? <==> r == Err(OutOfRange)
  {
    StringWithLength(s, offset, Decode(TailFrom(s, offset)))
  }

  /** The rest of `readString` once `readVarInt` has given the length (None: it threw). */
  function StringWithLength(s: seq<Byte>, offset: int, length: Option<Decoded>): Result<seq<Byte>>
  {
    match length
    case None => Err(OutOfRange)
    case Some(d) => Ok(JsSlice(s, offset + d.length, offset + d.length + d.value))
  }

  /**
   * Where `readString` leaves a cursor that started at `offset`: past the
   * length prefix and the declared length, or one past the end of the buffer
   * when the prefix is incomplete.
   */
  function StringEnd(s: seq<Byte>, offset: int): int
  {
    var t := TailFrom(s, offset);
    match Decode(t)
    case Some(d) => offset + d.length + d.value
    case None => offset + |t| + 1
  }

  /** Once `readVarInt` has given `length` and moved to `next`, the string is its error or the slice at `next`. */
  lemma StringAfterRead(s: seq<Byte>, start: int, decoded: Option<Decoded>, length: Result<int>, next: int)
    requires match decoded
      case Some(d) => length == Ok(d.value) && next == start + d.length
      case None => length == Err(OutOfRange)
    ensures length.Err? ==> StringWithLength(s, start, decoded) == Err(OutOfRange)
    ensures length.Ok? ==> StringWithLength(s, start, decoded) == Ok(JsSlice(s, next, next + length.value))
  {
  }

  /**
   * `readString` on the bytes of `putString(s)` returns as many UTF-8 bytes as
   * `s` has code units: the first bytes of the text, never more.
   */
  lemma StringReadsPrefix(s: string, rest: seq<Byte>)
    requires |Utf8(s)| < TWO_31
    ensures |CodeUnits(s)| <= |Utf8(s)|
    ensures StringAt(StringBytes(s) + rest, 0) == Ok(Utf8(s)[..|CodeUnits(s)|])
  {
    UnitsAtMostUtf8(s);
    var n, body := |CodeUnits(s)|, Utf8(s);
    assert StringBytes(s) + rest == Encode(n) + (body + rest);
    EncodeDecodeInt32(n, body + rest);
    LengthPrefixed(Encode(n), n, body, rest);
  }

  /** Bytes after a complete length prefix `n` read back as their first `n`. */
  lemma LengthPrefixed(prefix: seq<Byte>, n: int, body: seq<Byte>, rest: seq<Byte>)
    requires 0 <= n <= |body|
    requires Decode(prefix + (body + rest)) == Some(Decoded(n, |prefix|))
    ensures StringAt(prefix + (body + rest), 0) == Ok(body[..n])
  {
    var all := prefix + (body + rest);
    assert TailFrom(all, 0) == all;
    assert all[|prefix|..|prefix| + n] == body[..n];
  }

  /**
   * `readString` inverts `putString` exactly when the code-unit count equals
   * the UTF-8 length, that is, exactly for ASCII strings.
   */
  lemma StringRoundTrip(s: string, rest: seq<Byte>)
    requires |Utf8(s)| < TWO_31
    ensures StringAt(StringBytes(s) + rest, 0) == Ok(Utf8(s)) <==> |CodeUnits(s)| == |Utf8(s)|
    ensures StringAt(StringBytes(s) + rest, 0) == Ok(Utf8(s)) <==> IsAscii(s)
  {
    CountsAgreeIffAscii(s);
    StringReadsPrefix(s, rest);
    if |CodeUnits(s)| == |Utf8(s)| {
      assert Utf8(s)[..|CodeUnits(s)|] == Utf8(s);
    } else {
      assert |Utf8(s)[..|CodeUnits(s)|]| != |Utf8(s)|;
    }
  }

  /** `readString` returns the whole UTF-8 text of any string framed by its UTF-8 length. */
  lemma ServerStringRoundTrip(s: string, rest: seq<Byte>)
    requires |Utf8(s)| < TWO_31
    ensures StringAt(ServerStringBytes(s) + rest, 0) == Ok(Utf8(s))
    ensures StringEnd(ServerStringBytes(s) + rest, 0) == |ServerStringBytes(s)|
  {
    var n, body := |Utf8(s)|, Utf8(s);
    assert ServerStringBytes(s) + rest == Encode(n) + (body + rest);
    EncodeDecodeInt32(n, body + rest);
    LengthPrefixed(Encode(n), n, body, rest);
    assert body[..n] == body;
    assert TailFrom(Encode(n) + (body + rest), 0) == Encode(n) + (body + rest);
  }

  /** In particular for every ASCII string. */
  lemma AsciiStringRoundTrip(s: string, rest: seq<Byte>)
    requires IsAscii(s) && |s| < TWO_31
    ensures StringAt(StringBytes(s) + rest, 0) == Ok(Utf8(s))
    ensures |Utf8(s)| == |s| && forall i | 0 <= i < |s| :: Utf8(s)[i] == s[i] as int
  {
    AsciiEncodings(s);
    StringRoundTrip(s, rest);
  }

  /** The prefix counts code units, so a non-ASCII string reads back short: "é" yields only C3. */
  lemma NonAsciiStringReadsShort()
    ensures StringBytes("é") == [0x01, 0xC3, 0xA9]
    ensures StringAt(StringBytes("é"), 0) == Ok([0xC3])
  {
    NonAsciiCountsDiffer();
    assert Encode(1) == [0x01];
    var b := StringBytes("é");
    assert b == [0x01] + [0xC3, 0xA9];
    EncodeDecodeInt32(1, [0xC3, 0xA9]);
    assert TailFrom(b, 0) == b;
    assert Decode(b) == Some(Decoded(1, 1));
    assert JsSlice(b, 1, 2) == [0xC3];
  }

  /** Collects byte spans; each `put` places its span first (`start`) or last. */
  class BufferBuilder {
    var buffers: seq<seq<Byte>>

    constructor ()
      ensures buffers == [] && Build() == []
    {
      buffers := [];
    }

    /** `build()`: the spans concatenated in list order. */
    function Build(): seq<Byte>
      reads this
    {
      Concat(buffers)
    }

    method PutBuffer(buffer: seq<Byte>, start: bool)
      modifies this
      ensures buffers == Placed(old(buffers), buffer, start)
      ensures Build() == Joined(old(Build()), buffer, start)
    {
      if start {
        ConcatPrepend(buffer, buffers);
        buffers := [buffer] + buffers;
      } else {
        ConcatAppend(buffers, buffer);
        buffers := buffers + [buffer];
      }
    }

    method PutByte(value: Byte, start: bool)
      modifies this
      ensures buffers == Placed(old(buffers), [value], start)
      ensures Build() == Joined(old(Build()), [value], start)
    {
      PutBuffer([value], start);
    }

    /** Little-endian: low byte, then high byte. */
    method PutUShort(value: U16, start: bool)
      modifies this
      ensures buffers == Placed(old(buffers), [value % 0x100, value / 0x100], start)
      ensures Build() == Joined(old(Build()), LE16(value), start)
    {
      PutBuffer(LE16(value), start);
    }

    /** Big-endian: high byte, then low byte. */
    method PutUShortBE(value: U16, start: bool)
      modifies this
      ensures buffers == Placed(old(buffers), [value / 0x100, value % 0x100], start)
      ensures Build() == Joined(old(Build()), BE16(value), start)
    {
      PutBuffer(BE16(value), start);
    }

    /** Big-endian: four bytes, most significant first. */
    method PutUIntBE(value: U32, start: bool)
      modifies this
      ensures buffers == Placed(old(buffers), BE32(value), start)
      ensures Build() == Joined(old(Build()), BE32(value), start)
      ensures |BE32(value)| == 4 && ReadBE32(BE32(value)[0], BE32(value)[1], BE32(value)[2], BE32(value)[3]) == value
    {
      UIntRoundTrip(value);
      PutBuffer(BE32(value), start);
    }

    /** The do-while loop of `putVarInt`, then the encoded bytes placed as one span. */
    method PutVarInt(value: int, start: bool)
      modifies this
      ensures buffers == Placed(old(buffers), Encode(value), start)
      ensures Build() == Joined(old(Build()), Encode(value), start)
    {
      var builder := new BufferBuilder();
      ghost var target := Encode(value);
      var v := value;
      var more := true;
      while more
        invariant fresh(builder) && buffers == old(buffers)
        invariant more ==> builder.Build() + EncodeU32(ToUint32(v)) == target
        invariant !more ==> builder.Build() == target
        decreases if more then ToUint32(v) + 1 else 0
      {
        ghost var v0, done := v, builder.Build();
        var toWrite := v % 128;          // value & 0b01111111
        v := ToUint32(v) / 128;          // value >>>= 7
        if v != 0 {
          toWrite := toWrite + 128;      // toWrite |= 0b10000000
        }
        EncodeStep(v0);
        builder.PutByte(toWrite, false);
        more := v != 0;
      }
      PutBuffer(builder.Build(), start);
    }

    /** The length prefix counts UTF-16 code units; the body is UTF-8. */
    method PutString(value: string, start: bool)
      modifies this
      ensures buffers == Placed(old(buffers), StringBytes(value), start)
      ensures Build() == Joined(old(Build()), StringBytes(value), start)
    {
      var builder := new BufferBuilder();
      builder.PutVarInt(|CodeUnits(value)|, false);
      builder.PutBuffer(Utf8(value), false);
      assert builder.Build() == StringBytes(value);
      PutBuffer(builder.Build(), start);
    }
  }

  /** One turn of the `putVarInt` loop: the low seven bits, flagged when more groups follow. */
  lemma EncodeStep(x: int)
    ensures var u := ToUint32(x); var w := u / 128;
      ToUint32(w) == w && (w != 0 ==> w < u) &&
      EncodeU32(u) == [x % 128 + (if w != 0 then 128 else 0)] + (if w != 0 then EncodeU32(w) else [])
  {
    LowBitsKept(x);
  }

  /** `value & 0x7F` on an integral number keeps the same seven bits as its unsigned 32-bit view. */
  lemma LowBitsKept(v: int)
    ensures ToUint32(v) % 128 == v % 128
  {
    var u, a := ToUint32(v), v / TWO_32;
    assert v == 128 * (0x200_0000 * a) + u;
    DivModUnique(u, 128, u / 128, u % 128);
    DivModUnique(v, 128, 0x200_0000 * a + u / 128, u % 128);
  }

  lemma DivModUnique(v: int, d: int, q: int, r: int)
    requires d > 0 && v == d * q + r && 0 <= r < d
    ensures v / d == q && v % d == r
  {
    var q', r' := v / d, v % d;
    assert d * (q - q') == r' - r;
    if q > q' {
      MulMonotone(1, q - q', d);
    } else if q < q' {
      MulMonotone(1, q' - q, d);
    }
  }

  /** A cursor over a fixed buffer; every read moves `offset`, even one that then fails. */
  class BufferReader {
    const buffer: array<Byte>
    var offset: int

    constructor (buffer: array<Byte>)
      ensures this.buffer == buffer && offset == 0
    {
      this.buffer := buffer;
      offset := 0;
    }

    /** Advances the offset by `amount` and returns the offset from before. */
    method Move(amount: int) returns (previous: int)
      modifies this
      ensures previous == old(offset) && offset == old(offset) + amount
    {
      previous := offset;
      offset := offset + amount;
    }

    /** The `count` bytes from the old offset, clamped to the buffer; never fails. */
    method ReadBytes(count: int) returns (r: seq<Byte>)
      modifies this
      ensures offset == old(offset) + count
      ensures r == JsSlice(buffer[..], old(offset), old(offset) + count)
      ensures 0 <= old(offset) && 0 <= count && old(offset) + count <= buffer.Length ==> |r| == count
    {
      var from := Move(count);
      r := JsSlice(buffer[..], from, offset);
    }

    method ReadByte() returns (r: Result<Byte>)
      modifies this
      ensures offset == old(offset) + 1
      ensures r == if 0 <= old(offset) < buffer.Length then Ok(buffer[old(offset)]) else Err(OutOfRange)
    {
      var at := Move(1);
      if 0 <= at < buffer.Length {
        r := Ok(buffer[at]);
      } else {
        r := Err(OutOfRange);
      }
    }

    /** Little-endian 16-bit read. */
    method ReadUInt16() returns (r: Result<U16>)
      modifies this
      ensures offset == old(offset) + 2
      ensures r == if 0 <= old(offset) && old(offset) + 2 <= buffer.Length
        then Ok(ReadLE16(buffer[old(offset)], buffer[old(offset) + 1])) else Err(OutOfRange)
    {
      var at := Move(2);
      if 0 <= at && at + 2 <= buffer.Length {
        r := Ok(ReadLE16(buffer[at], buffer[at + 1]));
      } else {
        r := Err(OutOfRange);
      }
    }

    /** Big-endian 16-bit read. */
    method ReadUInt16BE() returns (r: Result<U16>)
      modifies this
      ensures offset == old(offset) + 2
      ensures r == if 0 <= old(offset) && old(offset) + 2 <= buffer.Length
        then Ok(ReadBE16(buffer[old(offset)], buffer[old(offset) + 1])) else Err(OutOfRange)
    {
      var at := Move(2);
      if 0 <= at && at + 2 <= buffer.Length {
        r := Ok(ReadBE16(buffer[at], buffer[at + 1]));
      } else {
        r := Err(OutOfRange);
      }
    }

    /**
     * The VarInt at the offset. On success the offset moves past its bytes; when
     * the buffer ends first, the read of the missing byte fails after moving.
     */
    method ReadVarInt() returns (r: Result<int>)
      modifies this
      ensures var t := TailFrom(buffer[..], old(offset));
        match Decode(t)
        case Some(d) => r == Ok(d.value) && offset == old(offset) + d.length
        case None => r == Err(OutOfRange) && offset == old(offset) + |t| + 1
    {
      ghost var t := TailFrom(buffer[..], offset);
      ghost var start := offset;
      var k: nat, acc: U32 := 0, 0;
      var more := true;
      while more
        invariant 0 <= k <= 5 && offset == start + k && k <= |t|
        invariant more ==> k < 5 && Decode(t) == DecodeFrom(t, k, acc)
        invariant !more ==> Decode(t) == Some(Decoded(ToInt32(acc), k))
        decreases 5 - k, more
      {
        var b := ReadByte();
        if b.Err? {
          assert k == |t|;
          return Err(OutOfRange);
        }
        var cur := b.value;
        assert cur == t[k];
        acc := BitOr(acc, Group(cur, k)) % TWO_32;   // result |= (curByte & 0x7F) << (7 * offset)
        k := k + 1;
        more := cur >= 0x80 && k < 5;
      }
      r := Ok(ToInt32(acc));
    }

    /** A VarInt length, then that many bytes. */
    method ReadString() returns (r: Result<seq<Byte>>)
      modifies this
      ensures r == StringAt(buffer[..], old(offset))
      ensures offset == StringEnd(buffer[..], old(offset))
    {
      ghost var s, start := buffer[..], offset;
      assert StringAt(s, start) == StringWithLength(s, start, Decode(TailFrom(s, start)));
      var strLen := ReadVarInt();
      StringAfterRead(s, start, Decode(TailFrom(s, start)), strLen, offset);
      if strLen.Err? {
        return Err(OutOfRange);
      }
      var bytes := ReadBytes(strLen.value);
      r := Ok(bytes);
      assert buffer[..] == s;
    }
  }

  /** The outcome of `read(count)`: the bytes now, a wait for more data, or a rejection. */
  datatype ReadStep = Done(data: seq<Byte>) | Waiting | Failed(error: Error)

  /** Cutting a sequence at a point inside its first part. */
  lemma SplitAt<T>(b: seq<T>, t: seq<T>, n: nat)
    requires n <= |b|
    ensures n <= |b + t| && (b + t)[..n] == b[..n] && (b + t)[n..] == b[n..] + t
  {
  }

  /**
   * The buffering state of the socket wrapper: bytes received but not yet read,
   * and the size of the single read waiting for data (0 when none; the wrapper
   * tests this field for truthiness).
   */
  class SocketWrapper {
    var buffer: seq<Byte>
    var bytesToRead: nat
    /** Whether any data has arrived yet: the source's `buffer` is null until then. */
    var received: bool

    /** Nothing is buffered before data arrives; a waiting read never coexists with enough buffered bytes. */
    ghost predicate Valid()
      reads this
    {
      (!received ==> buffer == []) && (bytesToRead > 0 ==> |buffer| < bytesToRead)
    }

    constructor ()
      ensures Valid() && buffer == [] && bytesToRead == 0 && !received
    {
      buffer := [];
      bytesToRead := 0;
      received := false;
    }

    /**
     * `read(count)`. Once data has arrived, a count of zero or less is served at
     * once from the buffer with `Buffer.slice`'s clamping.
     */
    method Read(count: int) returns (step: ReadStep)
      requires Valid() && (count > 0 || received)
      modifies this
      ensures Valid() && received == old(received)
      ensures old(bytesToRead) > 0 ==>
        step == Failed(ReadAlreadyPending) && buffer == old(buffer) && bytesToRead == old(bytesToRead)
      ensures old(bytesToRead) == 0 && received && count <= |old(buffer)| ==>
        step == Done(JsSlice(old(buffer), 0, count)) && buffer == JsSlice(old(buffer), count, |old(buffer)|)
        && bytesToRead == 0
      ensures old(bytesToRead) == 0 && !(received && count <= |old(buffer)|) ==>
        count > 0 && step == Waiting && buffer == old(buffer) && bytesToRead == count
    {
      if bytesToRead > 0 {
        return Failed(ReadAlreadyPending);
      }
      if received && |buffer| >= count {
        var data := JsSlice(buffer, 0, count);
        buffer := JsSlice(buffer, count, |buffer|);
        return Done(data);
      }
      bytesToRead := count;
      step := Waiting;
    }

    /** The `data` handler: append the chunk, then resolve the waiting read if it is now satisfied. */
    method OnData(chunk: seq<Byte>) returns (resolved: Option<seq<Byte>>)
      requires Valid()
      modifies this
      ensures Valid() && received
      ensures var b := old(buffer) + chunk;
        if old(bytesToRead) > 0 && old(bytesToRead) <= |b| then
          resolved == Some(b[..old(bytesToRead)]) && buffer == b[old(bytesToRead)..] && bytesToRead == 0
        else
          resolved == None && buffer == b && bytesToRead == old(bytesToRead)
    {
      buffer := buffer + chunk;          // a null buffer is taken over as it is
      received := true;
      if bytesToRead > 0 && |buffer| >= bytesToRead {
        var result := buffer[..bytesToRead];
        buffer := buffer[bytesToRead..];
        bytesToRead := 0;
        resolved := Some(result);
      } else {
        resolved := None;
      }
    }

    /**
     * The `close` handler: a waiting read is rejected. Its branch for a waiting
     * read with enough bytes buffered cannot be taken, by `Valid()`.
     */
    method OnClose() returns (rejected: Option<Error>)
      requires Valid()
      ensures bytesToRead > 0 <==> rejected == Some(StreamClosed)
      ensures bytesToRead == 0 <==> rejected == None
    {
      rejected := None;
      if bytesToRead > 0 {
        if |buffer| >= bytesToRead {
          assert false;
        } else {
          rejected := Some(StreamClosed);
        }
      }
    }

    /**
     * `await read(count)`: when the read has to wait, the peer's next chunks
     * (`incoming`) arrive one `data` event at a time until it is satisfied;
     * if they run out first the peer closes the connection.
     */
    method AwaitRead(count: int, incoming: seq<seq<Byte>>) returns (r: Result<seq<Byte>>, rest: seq<seq<Byte>>)
      requires Valid() && bytesToRead == 0 && (count > 0 || received)
      modifies this
      ensures Valid()
      ensures count <= 0 ==>
        r == Ok(JsSlice(old(buffer), 0, count)) && buffer == JsSlice(old(buffer), count, |old(buffer)|)
        && bytesToRead == 0 && received && rest == incoming
      ensures var s := old(buffer) + Concat(incoming);
        0 < count <= |s| ==>
          r == Ok(s[..count]) && bytesToRead == 0 && received && buffer + Concat(rest) == s[count..]
      ensures var s := old(buffer) + Concat(incoming);
        count > |s| ==>
          r == Err(StreamClosed) && bytesToRead == count && buffer == s && rest == []
          && (received <==> old(received) || incoming != [])
    {
      ghost var s := old(buffer) + Concat(incoming);
      var step := Read(count);
      if step.Done? {
        if count > 0 {
          SplitAt(old(buffer), Concat(incoming), count);
        }
        return Ok(step.data), incoming;
      }
      var i := 0;
      while i < |incoming|
        invariant 0 <= i <= |incoming|
        invariant Valid() && bytesToRead == count
        invariant s == buffer + Concat(incoming[i..])
        invariant received <==> old(received) || i > 0
      {
        assert incoming[i..] == [incoming[i]] + incoming[i + 1..];
        ConcatPrepend(incoming[i], incoming[i + 1..]);
        ghost var b := buffer + incoming[i];
        assert s == b + Concat(incoming[i + 1..]);
        var resolved := OnData(incoming[i]);
        i := i + 1;
        if resolved.Some? {
          SplitAt(b, Concat(incoming[i..]), count);
          return Ok(resolved.value), incoming[i..];
        }
      }
      assert incoming[i..] == [];
      var rejected := OnClose();
      r, rest := Err(StreamClosed), [];
    }

    /** `readVarInt()` on the stream: `read(1)` per byte, the same stopping rule as the cursor's. */
    method ReadVarInt(incoming: seq<seq<Byte>>) returns (r: Result<int>, rest: seq<seq<Byte>>)
      requires Valid() && bytesToRead == 0
      modifies this
      ensures Valid()
      ensures var s := old(buffer) + Concat(incoming);
        match Decode(s)
        case Some(d) => r == Ok(d.value) && bytesToRead == 0 && received && buffer + Concat(rest) == s[d.length..]
        case None => r == Err(StreamClosed) && buffer == [] && bytesToRead == 1 && rest == []
    {
      ghost var s := old(buffer) + Concat(incoming);
      var k: nat, acc: U32 := 0, 0;
      var more := true;
      rest := incoming;
      while more
        invariant 0 <= k <= 5 && k <= |s|
        invariant Valid() && bytesToRead == 0 && (k > 0 ==> received)
        invariant buffer + Concat(rest) == s[k..]
        invariant more ==> k < 5 && Decode(s) == DecodeFrom(s, k, acc)
        invariant !more ==> Decode(s) == Some(Decoded(ToInt32(acc), k))
        decreases 5 - k, more
      {
        var got;
        got, rest := AwaitRead(1, rest);
        if got.Err? {
          assert k == |s|;
          return Err(StreamClosed), rest;
        }
        var cur := got.value[0];
        assert cur == s[k];
        acc := BitOr(acc, Group(cur, k)) % TWO_32;
        k := k + 1;
        more := cur >= 0x80 && k < 5;
      }
      r := Ok(ToInt32(acc));
    }
  }
}
