# Minecraft server-list ping: codec and framing

A Dafny model of the binary core of a Minecraft server-list ping client:

- `protocol-types.js`:
  - the span builder (`BufferBuilder`) that encodes requests;
  - the cursor (`BufferReader`) that decodes responses;
  - the buffering state machine (`SocketWrapper`) between the socket's `data` and `close` events and `read(n)` requests.
- `mc-protocol.js`:
  - the modern Server List Ping exchange: packet frames, handshake, status request, response decoding;
  - the legacy (pre-1.7) ping: the `FE 01 FA` plugin message out, and a `FF`-headed UTF-16BE reply with zero-unit separators back;
  - the address defaulting of `parseParams`.

## Files

| file | contents |
|---|---|
| `wrappers.dfy` | `Option`, `Result` and the client's error kinds |
| `bytes.dfy` | bytes and fixed-width layouts, `Buffer.concat`, the clamping of `Buffer.slice` |
| `text.dfy` | UTF-8 and UTF-16 code units of strings; UTF-16LE/BE byte orders (section 3 of RFC 2781) |
| `varint.dfy` | the VarInt format: the encoder on the unsigned 32-bit view, the five-byte signed 32-bit decoder, the round trip |
| `protocol_types.dfy` | classes `BufferBuilder`, `BufferReader` and `SocketWrapper` |
| `mc_protocol.dfy` | modern packets, `parseParams`, the legacy request and response |

## Modelling notes

- The classes keep the source's state: `BufferBuilder.buffers`, `BufferReader.buffer`/`offset`, and `SocketWrapper.buffer`/`bytesToRead`.
  - Each method is proved against a specification function: `Build`, `Encode`, `Decode`, `StringAt`, `PacketAt`, `PacketStream`, `FieldAt`, `LegacyFields` and `LegacyStream`.
  - The properties are proved as lemmas about those functions.
- JavaScript's 32-bit bitwise operators are explicit:
  - `>>>` works on `ToUint32`;
  - `|=` and `<<` are a bitwise OR on naturals (`BitOr`), with `(b & 0x7F) << 7k` cut to 32 bits (`Group`);
  - the decoded pattern is read back through `ToInt32`.
- A fixed-width read or write outside the buffer, or outside the type's range, is Node's `RangeError`, modelled as `Err(OutOfRange)`.
  - Every `readUInt8` in the legacy field scan can fail this way. An empty field at the end of the buffer fails, and so does a zero last byte reached by the scan.
- `Buffer.slice` never fails: negative indices count from the end and indices are clamped (`JsSlice`).
  - A slice shares its bytes. So `fromUTF16BE` on a slice of the reader's buffer swaps the field's byte pairs in the reader's own buffer (`ReadLegacyField` modifies `reader.buffer`).
  - The model proves that later fields are not affected (`ReadLegacyFields`).
- The pair swap on an odd-length view writes `undefined`, stored as 0, into the last byte. `toString("utf16le")` drops an odd trailing byte.
- Strings are Dafny strings (Unicode scalar values).
  - A JavaScript string's `length` is its number of UTF-16 code units (`CodeUnits`).
  - `putString` prefixes that count and then writes UTF-8. So `readString` inverts `putString` exactly when the two counts agree, which is exactly for ASCII strings (`StringRoundTrip`).
  - `NonAsciiStringReadsShort` shows a non-ASCII string reading back short.
  - A server frames its strings by their UTF-8 byte count (`ServerStringBytes`), and `readString` reads such a string back whole for any text (`ServerStringRoundTrip`). The status-response lemmas use this framing.
- Waiting for the network is a parameter: `incoming` is the sequence of chunks the peer sends while the client waits, followed by a close.
  - `SocketWrapper.AwaitRead` delivers them one `data` event at a time.
  - It returns the chunks that were not needed.
- `net.isIP` and `dns.resolveSrv` are parameters of `ParseParams`. The lookup is given as its outcome: rejected, or a list of records.
- The legacy response (mc-protocol.js:141-170):
  - `readLegacyResponse` skips six bytes (three code units) and then reads five fields: protocol, version name, description, players online and maximum players (mc-protocol.js:154-167).
  - `Number()` on the protocol field never throws (a non-numeric field gives NaN), so this step has no error path; the model keeps the field as code units.
  - A field whose scan reaches a zero last byte, or which starts at the end of the buffer, throws a range error.

## Model

| member | source | states |
|---|---|---|
| Bytes.UShortRoundTrip | protocol-types.js:170-171 | `putUShort` writes low then high byte and `putUShortBE` high then low; `readUInt16LE`/`readUInt16BE` read each layout back to the value |
| Bytes.UIntRoundTrip | protocol-types.js:172 | `putUIntBE` writes four bytes, most significant first, that `readUInt32BE` reads back to the value |
| Bytes.ConcatSplit | protocol-types.js:163-165 | `Buffer.concat` of two span lists joined is the concatenation of each list's bytes, in list order |
| Bytes.JsSlice | protocol-types.js:126 | `slice(start, end)` is the exact span when both lie in the buffer, runs to the end when `end` is past it, and is empty when `0 <= end <= start`; a negative `end` counts back from the end of the buffer |
| Text.UnitsFromLE | mc-protocol.js:100 | `toString("utf16le")` yields one code unit per byte pair, dropping an odd last byte |
| Text.UnitsLERoundTrip | mc-protocol.js:100 | decoding UTF-16LE bytes gives back exactly the code units that were encoded |
| Text.AsciiEncodings | protocol-types.js:191-192 | for ASCII text, `value.length`, the UTF-8 byte count and the character count coincide, and each UTF-8 byte is the character |
| Text.UnitsAtMostUtf8 | protocol-types.js:191-192 | a string's UTF-16 code-unit count (`value.length`) is at most its UTF-8 byte count |
| Text.NonAsciiLonger | protocol-types.js:191-192 | a string with any character outside ASCII has fewer code units (`value.length`) than UTF-8 bytes |
| Text.CountsAgreeIffAscii | protocol-types.js:191-192 | the code-unit count equals the UTF-8 byte count if and only if the string is ASCII |
| Text.NonAsciiCountsDiffer | protocol-types.js:191-192 | an instance of `NonAsciiLonger`: "é" is 1 code unit and the UTF-8 bytes C3 A9 |
| VarInt.BitOrDisjoint | protocol-types.js:142 | OR-ing a value below 2^n with a multiple of 2^n adds them: the 7-bit groups of `readVarInt` never overlap |
| VarInt.EncodeShape | protocol-types.js:174-187 | `putVarInt` emits 1 to 5 bytes, with bit 0x80 set on every byte but the last and clear on the last |
| VarInt.EncodeZero | protocol-types.js:178-183 | the do-while loop writes one byte for 0: exactly `00` |
| VarInt.EncodeMinusOne | protocol-types.js:180 | `>>>` takes -1 as 0xFFFFFFFF, so -1 encodes as `FF FF FF FF 0F` |
| VarInt.DecodeFrom | protocol-types.js:135-148 | the decoding loop consumes at most 5 bytes; every consumed byte but the last has bit 0x80, and the last one lacks it unless 5 were read; the value is a signed 32-bit integer; it lacks bytes exactly when fewer than 5 remain and all have bit 0x80 |
| VarInt.DecodeFromPrefix | protocol-types.js:140-144 | decoding never looks past the byte where it stops: appending bytes changes nothing |
| VarInt.EncodeDecode | protocol-types.js:135-187 | decoding the bytes of `putVarInt(x)`, followed by anything, gives x as a signed 32-bit value and consumes exactly the encoding |
| VarInt.EncodeDecodeInt32 | protocol-types.js:135-187 | for every signed 32-bit x the VarInt round trip returns x itself |
| VarInt.Int32RoundTrip | protocol-types.js:142-180 | a signed 32-bit value survives the unsigned view of `>>>` and the signed view of `\|=` |
| ProtocolTypes.StringAt | protocol-types.js:150-153 | `readString` fails exactly when the VarInt length prefix is incomplete |
| ProtocolTypes.StringRoundTrip | protocol-types.js:150-153 | `readString` on the bytes of `putString(s)`, followed by anything, returns the UTF-8 bytes of s if and only if its code-unit count equals its UTF-8 length, that is, if and only if s is ASCII |
| ProtocolTypes.ServerStringRoundTrip | protocol-types.js:150-153 | `readString` on a string framed by its UTF-8 byte count, followed by anything, returns all of its UTF-8 bytes for every string, and the cursor ends right after it |
| ProtocolTypes.StringReadsPrefix | protocol-types.js:150-153 | the code-unit count never exceeds the UTF-8 length, and `readString` on the bytes of `putString(s)` returns exactly the first code-unit-count bytes of the UTF-8 encoding |
| ProtocolTypes.AsciiStringRoundTrip | protocol-types.js:150-194 | for every ASCII string `readString` inverts `putString`, and the bytes returned are the characters |
| ProtocolTypes.NonAsciiStringReadsShort | protocol-types.js:150-194 | "é" is written as `01 C3 A9` and reads back as only `C3`: the prefix counts code units |
| ProtocolTypes.BufferBuilder.constructor | protocol-types.js:159-161 | a new builder holds no spans and builds to nothing |
| ProtocolTypes.BufferBuilder.PutBuffer | protocol-types.js:168 | the span goes before every existing span when `start`, otherwise after them; existing spans are kept; `build()` becomes span + old or old + span |
| ProtocolTypes.BufferBuilder.PutByte | protocol-types.js:169 | one byte placed as a span, first or last |
| ProtocolTypes.BufferBuilder.PutUShort | protocol-types.js:170 | the low byte, then the high byte, placed as a span |
| ProtocolTypes.BufferBuilder.PutUShortBE | protocol-types.js:171 | the high byte, then the low byte, placed as a span |
| ProtocolTypes.BufferBuilder.PutUIntBE | protocol-types.js:172 | four bytes, most significant first, placed as a span; they read back to the value |
| ProtocolTypes.BufferBuilder.PutVarInt | protocol-types.js:174-187 | the do-while loop builds exactly `Encode(value)` and places it as one span |
| ProtocolTypes.BufferBuilder.PutString | protocol-types.js:189-194 | places one span: the VarInt of the code-unit count followed by the UTF-8 bytes |
| ProtocolTypes.EncodeStep | protocol-types.js:179-183 | one turn of the loop: the low seven bits, flagged 0x80 exactly when the shifted value is non-zero, which is smaller, so the loop ends |
| ProtocolTypes.BufferReader.constructor | protocol-types.js:112-115 | a reader over the buffer at offset 0 |
| ProtocolTypes.BufferReader.Move | protocol-types.js:119-123 | returns the old offset and advances it by exactly `amount` |
| ProtocolTypes.BufferReader.ReadBytes | protocol-types.js:126 | the slice from the old offset of length `count` (clamped), with `count` bytes when they lie in the buffer; the offset moves by `count` |
| ProtocolTypes.BufferReader.ReadByte | protocol-types.js:127 | the byte at the old offset, or a range error outside the buffer; the offset moves by 1 either way |
| ProtocolTypes.BufferReader.ReadUInt16 | protocol-types.js:128 | the little-endian value of the two bytes at the old offset, or a range error; the offset moves by 2 |
| ProtocolTypes.BufferReader.ReadUInt16BE | protocol-types.js:129 | the big-endian value of the two bytes at the old offset, or a range error; the offset moves by 2 |
| ProtocolTypes.BufferReader.ReadVarInt | protocol-types.js:135-148 | the value `Decode` gives for the bytes from the offset, with the offset advanced by exactly the bytes consumed (at most 5); a range error once past the end |
| ProtocolTypes.BufferReader.ReadString | protocol-types.js:150-153 | returns `StringAt` of the buffer at the old offset and moves past the prefix and the declared length |
| ProtocolTypes.SocketWrapper.constructor | protocol-types.js:6-10 | no data yet, nothing buffered, no read waiting |
| ProtocolTypes.SocketWrapper.Read | protocol-types.js:75-90 | fails while another read waits; with enough buffered returns the first `count` bytes and keeps exactly the remainder; otherwise registers the single waiting read; keeps `Valid()` |
| ProtocolTypes.SocketWrapper.OnData | protocol-types.js:31-46 | appends the chunk; resolves a satisfied waiting read with exactly `bytesToRead` bytes, keeps the surplus and clears the slot; keeps `Valid()` (no waiting read coexists with enough buffered bytes) |
| ProtocolTypes.SocketWrapper.OnClose | protocol-types.js:16-29 | a waiting read is rejected, and only then; the enough-bytes branch is unreachable under `Valid()` |
| ProtocolTypes.SocketWrapper.AwaitRead | protocol-types.js:31-90 | `await read(count)` over the peer's chunks: the first `count` bytes of buffer + chunks with the rest kept in order, or a rejection when the peer closes first, after which the read stays registered for `count` bytes and the buffer holds every byte received |
| ProtocolTypes.SocketWrapper.ReadVarInt | protocol-types.js:92-105 | `read(1)` per byte yields `Decode` of the stream and leaves exactly the bytes after the VarInt; a close before the VarInt ends is a rejection |
| McProtocol.MakePacket | mc-protocol.js:18-30 | `VarInt(len(inner)) ++ inner` with `inner = VarInt(id) ++ buffer`; a missing buffer adds nothing |
| McProtocol.FrameRoundTrip | mc-protocol.js:18-30 | a frame's length prefix decodes to the size of the inner packet, which is exactly the id's VarInt and the body; the id decodes back |
| McProtocol.MakeHandshakePacket | mc-protocol.js:32-39 | a frame with id 0 around VarInt(-1), the host string, the port in two little-endian bytes and VarInt(targetState); a port outside 0..65535 is a range error |
| McProtocol.HandshakeRoundTrip | mc-protocol.js:32-39 | for a host whose code-unit count equals its UTF-8 length (ASCII), a server reading the handshake body gets back -1, the host name, the port and the target state, each at its offset |
| McProtocol.HandshakeVersion | mc-protocol.js:34 | the body starts with the version's VarInt |
| McProtocol.HandshakeHost | mc-protocol.js:35 | for a host whose code-unit count equals its UTF-8 length (ASCII), the host name reads back as a string right after the version |
| McProtocol.HandshakePortState | mc-protocol.js:36-37 | the port reads back little-endian after the host, then the target state's VarInt ends the body |
| McProtocol.PingHandshakeState | mc-protocol.js:12-15 | the status ping's handshake body ends with the single byte `01`, the VarInt of `HandshakeState.PING` |
| McProtocol.MakeRequestPacket | mc-protocol.js:41-43 | exactly the two bytes `01 00` |
| McProtocol.PacketAt | mc-protocol.js:52-56 | `decodePacket` fails with a range error when the id's VarInt is incomplete |
| McProtocol.DecodePacket | mc-protocol.js:52-56 | the id is read, any id but 0 is refused, and id 0 returns the string that follows (`PacketAt`); the reader ends just past the string on id 0, just past the id for any other id, and one past the end of the buffer when the id runs out (`PacketEnd`) |
| McProtocol.ResponsePacketReads | mc-protocol.js:46-56 | a response packet (id 0, then the JSON framed by its UTF-8 byte count, as a server writes it) decodes to the whole JSON text, for any JSON including non-ASCII characters |
| McProtocol.ResponsePacketEnd | mc-protocol.js:52-56 | after such a response packet, whatever follows it, `decodePacket` leaves the cursor right after the JSON text |
| McProtocol.UnknownPacketRejected | mc-protocol.js:54 | every id other than 0 is refused with that id, whatever follows |
| McProtocol.PacketAtId | mc-protocol.js:52-56 | for id 0 the outcome is the string at the id's end; for others it is the refusal |
| McProtocol.PacketStream | mc-protocol.js:59-62 | an incomplete length prefix is a closed connection; the outcome is undetermined exactly for a negative length |
| McProtocol.ReadPacket | mc-protocol.js:59-62 | reads one VarInt length, then exactly that many bytes, and decodes only those; a close before then is a rejection; after a read whose length fits, the socket's buffer followed by the unread chunks is exactly the stream after the frame |
| McProtocol.PacketStreamCases | mc-protocol.js:59-62 | for a complete prefix: negative length undetermined, a length that fits decodes the bytes it covers, a longer one is a closed connection |
| McProtocol.DecodeBytes | mc-protocol.js:61 | decoding a fresh reader over the data is `PacketAt(data, 0)` |
| McProtocol.ResponseStreamReads | mc-protocol.js:59-62 | a status response framed by a server (JSON prefixed by its UTF-8 byte count), followed by anything, reads back as its whole JSON text, for any JSON |
| McProtocol.ParseParams | mc-protocol.js:64-85 | the timeout is the option's, or 5000 |
| McProtocol.ParseParamsDefaults | mc-protocol.js:64-85 | without options the timeout is 5000, and an IP host gives port 25565 |
| McProtocol.ParseParamsIpSkipsDns | mc-protocol.js:67 | an IP host is kept with the requested port and the outcome does not depend on DNS |
| McProtocol.ParseParamsSrvWins | mc-protocol.js:69-73 | a non-empty SRV answer for a non-IP host replaces host and port with the first record's, even over an explicit port |
| McProtocol.ParseParamsNoSrv | mc-protocol.js:68-76 | a failed or empty lookup keeps the host and the requested port |
| McProtocol.SwapPairs | mc-protocol.js:90-92 | the swap keeps the length of the span |
| McProtocol.SwapPairsInvolution | mc-protocol.js:88-101 | on an even number of bytes, swapping the pairs twice restores the bytes |
| McProtocol.SwapLittleToBig | mc-protocol.js:88-94 | swapping the pairs of UTF-16LE gives UTF-16BE |
| McProtocol.BigEndianDecodes | mc-protocol.js:96-101 | swapping UTF-16BE and decoding it as UTF-16LE gives back the code units |
| McProtocol.SwapBytePairs | mc-protocol.js:90-92 | the in-place loop leaves `SwapPairs` of the span in the array and every byte outside it unchanged |
| McProtocol.ToUTF16LE | mc-protocol.js:88-94 | returns the UTF-16BE bytes of the string |
| McProtocol.FromUTF16BE | mc-protocol.js:96-101 | swaps the view's pairs in place, nothing else, and returns the code units of the swapped bytes read as UTF-16LE |
| McProtocol.LegacyString | mc-protocol.js:112-113 | a length-prefixed legacy string takes 2 + 2·len bytes |
| McProtocol.LegacyInner | mc-protocol.js:116-120 | the inner block takes 7 + 2·len(host) bytes |
| McProtocol.PluginMessage | mc-protocol.js:108-124 | a plugin message takes 5 + 2·len(channel) + len(data) bytes |
| McProtocol.LegacyHandshake | mc-protocol.js:103-127 | the legacy ping takes 36 + 2·len(host) bytes |
| McProtocol.PingHostLength | mc-protocol.js:111-112 | "MC\|PingHost" is 11 code units, 22 bytes in UTF-16BE |
| McProtocol.PutLegacyString | mc-protocol.js:112-113 | appends the big-endian code-unit count and then the UTF-16BE bytes |
| McProtocol.MakeLegacyHandshake | mc-protocol.js:103-127 | the built bytes are `LegacyHandshake(host, port)`; a range error exactly when the port is not an unsigned 32-bit value or the inner length does not fit 16 bits |
| McProtocol.MakeLegacyInner | mc-protocol.js:116-122 | `00`, the host as a legacy string, the port big-endian; a range error exactly when the host length or the port does not fit |
| McProtocol.LegacyStringReads | mc-protocol.js:112-113 | a legacy string reads back: the big-endian count, then the code units once the pairs are swapped |
| McProtocol.LegacyHandshakeFields | mc-protocol.js:103-127 | `FE 01 FA`, big-endian 11, "MC\|PingHost" in UTF-16BE, the inner length equal to the bytes that follow, then `00`, the host length, the host in UTF-16BE and the port big-endian; 36 + 2·len(host) bytes in all |
| McProtocol.PingFields | mc-protocol.js:106-124 | the same layout for any 11-unit channel name |
| McProtocol.PluginMessageFields | mc-protocol.js:108-124 | the tag FA, the channel length and name, the data length, then the data, at their offsets |
| McProtocol.InnerFields | mc-protocol.js:116-120 | `00`, the host length and name, and the port, at their offsets |
| McProtocol.FieldScan | mc-protocol.js:132-136 | the scan stops at the first position from the start where `00 00` begins, at any byte position, or at the end of the buffer; it fails exactly when the start is outside the buffer or the scan reaches a zero last byte |
| McProtocol.FieldAt | mc-protocol.js:130-139 | `readLegacyField` fails only with a range error |
| McProtocol.ReadLegacyField | mc-protocol.js:130-139 | returns the code units of the swapped bytes from the offset to the scan's stop, advances the offset to the stop plus 2, and leaves the buffer with that span swapped in place; on a range error the offset and buffer are unchanged |
| McProtocol.FieldScanFrame | mc-protocol.js:132-136 | the scan from a position reads only the bytes from there on |
| McProtocol.FieldAtFrame | mc-protocol.js:130-139 | a field reads the same in two buffers that agree from its start on |
| McProtocol.SwapKeepsTail | mc-protocol.js:96-99 | swapping a field's pairs in place leaves the bytes after it alone |
| McProtocol.LegacyFields | mc-protocol.js:156-168 | reading the five fields fails only with a range error |
| McProtocol.ReadLegacyFields | mc-protocol.js:156-168 | five `readLegacyField` calls in order give `LegacyFields` of the buffer as it was, despite each call's in-place swap; the reader ends 2 bytes past the last terminator found (at its old offset when the first field fails), with every field read so far swapped in place and no other byte changed (`AfterFields`) |
| McProtocol.ReadFieldOf | mc-protocol.js:130-139 | one field read on the mutated buffer equals the field of the original payload at the same offset, and the buffer still agrees with the payload from its terminator on |
| McProtocol.LegacyStream | mc-protocol.js:141-170 | "Invalid packet" exactly when three bytes arrived and the first is not FF; a result only when the header is FF and the full 2·L payload arrived |
| McProtocol.ReadLegacyResponse | mc-protocol.js:141-170 | `read(3)`, the FF check, `read(2·L)`, skip 6 bytes, five fields: exactly `LegacyStream` of everything the peer sends; after the header (and after the payload when it arrived) the socket's buffer followed by the unread chunks is exactly the stream after what was read |
| McProtocol.ReadLegacyHeader | mc-protocol.js:144-146 | "Invalid packet" unless the first byte is FF, then the big-endian length |
| McProtocol.ReadLegacyPayload | mc-protocol.js:151-168 | skips six bytes and reads the five fields: `LegacyFields(payload, 6)` |
| McProtocol.JoinFields | mc-protocol.js:130-139 | the reference encoder of a response payload that the field scan inverts, not a model of the parser: fields joined by zero units take an even number of bytes |
| McProtocol.LegacyResponseBytes | mc-protocol.js:144-150 | the reference encoder of a server's response that `readLegacyResponse` inverts, not a model of the parser: FF, the payload's length in code units and the payload |
| McProtocol.ScanStops | mc-protocol.js:132-136 | the scan finds `end` when every earlier position lets it continue and `end` starts a zero pair or ends a non-empty field at the end of the buffer |
| McProtocol.UnitsContinue | mc-protocol.js:132-138 | UTF-16BE text with no zero low byte never stops the scan, and its swapped pairs decode back to the units |
| McProtocol.FieldIn | mc-protocol.js:130-139 | such a field, followed by `00 00` or the end of the buffer, reads back as its units with the offset after the separator |
| McProtocol.FirstField | mc-protocol.js:130-139 | the first of several joined fields reads back, and the remaining fields follow its separator |
| McProtocol.FieldsFrom | mc-protocol.js:130-139 | the same, returning the next field's offset |
| McProtocol.FieldBefore | mc-protocol.js:130-139 | a field followed by `00 00` reads back, and the bytes after the separator follow it |
| McProtocol.FieldLast | mc-protocol.js:130-139 | a non-empty field that runs to the end of the buffer reads back |
| McProtocol.LegacyFieldsRoundTrip | mc-protocol.js:154-168 | after any 6 skipped bytes, five joined fields with no zero low byte (the last non-empty) read back as the same five fields |
| McProtocol.LegacyStreamRoundTrip | mc-protocol.js:141-170 | a server's response, followed by anything, reads back as the response it encodes |
| McProtocol.LegacyStreamTruncated | mc-protocol.js:144-150 | a response cut short anywhere is a closed connection |
| McProtocol.LegacyStreamOf | mc-protocol.js:144-154 | a framed payload followed by anything is read as that payload's fields |
| McProtocol.LegacyStreamCut | mc-protocol.js:144-150 | a framed payload cut short is a closed connection |
| McProtocol.AlignedScan | mc-protocol.js:132-136 | the unit-by-unit scan stops between its start and the end of the buffer |
| McProtocol.AlignedFieldAt | mc-protocol.js:130-139 | with the aligned scan a field fails exactly when its start is outside the buffer |
| McProtocol.UnitsNoZeroUnit | mc-protocol.js:132-136 | the UTF-16BE bytes of non-zero units hold no aligned zero pair |
| McProtocol.AlignedStops | mc-protocol.js:132-136 | the aligned scan stops at the first zero unit after a span holding none |
| McProtocol.AlignedFirstField | mc-protocol.js:130-139 | with the aligned scan, the first of several joined fields reads back whenever no unit is zero, and the others follow its separator |
| McProtocol.AlignedFieldIn | mc-protocol.js:130-139 | a field with no zero unit, followed by a zero unit or the end, reads back with the aligned scan |
| McProtocol.AlignedLegacyFields | mc-protocol.js:156-168 | the five fields read with the aligned scan fail only with a range error |
| McProtocol.AlignedFieldsRoundTrip | mc-protocol.js:154-168 | with the aligned scan, after any 6 skipped bytes, five joined fields with no zero code unit (the last non-empty) read back as the same five fields |
| McProtocol.MisalignedSeparator | mc-protocol.js:133-136 | U+4E00 "a" followed by a separator: the byte scan returns an empty field ending at offset 3, the aligned scan both units |

## Left out

- The transport: `net.Socket` creation, `connect`, `setTimeout` and the timeout handler, `error` events, `write`, `waitConnect` and the promise plumbing. The peer's bytes are a parameter (`incoming`), and a close follows them.
- `pingServer` and `legacyPing` are not modelled as members. They only chain `parseParams`, connect, write the request, and then `readPacket` or `readLegacyResponse`, each of which is modelled.
- `dns.resolveSrv` and `net.isIP` are parameters of `ParseParams`.
- `JSON.parse` in `decodePingResponse`: the response is its JSON text as UTF-8 bytes.
- `toString("utf-8")`: `readString` returns the bytes, not decoded text.
- `Number()` on the legacy protocol field: the field is kept as code units.
- Unpaired surrogates in strings: a Dafny string cannot hold them.
- `readInt32`, `readUInt32` and `readUInt64`: unused by the ping, and `readUInt64` needs BigInt.
- `PacketID.PING` and `HandshakeState.LOGIN` (mc-protocol.js:9, 14): declared but never used by the client.
- Aliasing between a builder's spans and buffers held elsewhere: spans are values.
- ProtocolTypes.SocketWrapper.Read: requires `count > 0` until data has arrived. Before that, a count of 0 parks a read that never resolves, and a negative count parks one that the first chunk resolves. The modelled callers never do either.
- McProtocol.ReadPacket: for a negative frame length (only possible from a corrupt stream), `read` serves a prefix of whatever is buffered, counted from its end. The contract only says the result decodes some prefix of the bytes after the length, and that the bytes left over are the rest of them.
- McProtocol.LegacyStreamRoundTrip: "no zero low byte in any code unit, last field non-empty" is a sufficient condition for the byte scan to split the fields back; it is not a characterisation.
- McProtocol.ParseParams: its own contract states only the timeout. Host and port are stated by the four `ParseParams*` lemmas.

## Findings

| source | as written | input that shows it | evidently intended | confidence | as-written member | corrected member |
|---|---|---|---|---|---|---|
| mc-protocol.js:133-136 | the field scan looks for `00 00` at every byte position, so it can match the low byte of one code unit together with the high byte of the next | a field "一a" (U+4E00 U+0061) is `4E 00 00 61`; the scan stops at offset 1, the field reads as empty and the next field starts one byte into the text, misaligned | split at the first zero code unit, scanning unit by unit | medium, not executed | McProtocol.MisalignedSeparator | McProtocol.AlignedFieldsRoundTrip |

The response model `ReadLegacyField`/`LegacyFields` keeps the byte scan as written. The corrected scan (`AlignedScan`, `AlignedFieldAt`, `AlignedLegacyFields`) reads back every response whose fields hold no zero code unit (`AlignedFirstField`, `AlignedFieldsRoundTrip`). The byte scan needs the stronger condition that no code unit has a zero low byte (`FirstField`).
