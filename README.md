# MCServerInfo wire protocol, in Dafny

This project models the core of MCServerInfo, a Kotlin library that asks a Minecraft Java Edition server for its status and guesses whether it runs in online mode. The model covers:

- the VarInt codec;
- the `PacketBuilder` field writer;
- the five protocol packets the library sends (handshake, status request, login start, login plugin response, cookie response);
- length-prefixed framing with the compressed sub-frame;
- the status query, and the login-phase probe (`checkForEncryptionRequest`) with its disconnect-reason classifier;
- the older stream-based `MinecraftServerPing`;
- the hand-written `equals` and `hashCode` of `MCServerStatus`.

Kotlin types map to Dafny as follows:

- `Int` is `bv32`, `Long` is `bv64`, a byte is `bv8`.
- `shl`, `ushr` and `31 * h` keep their 32-bit meaning.
- Strings are their UTF-8 bytes.

Imperative code stays imperative. Each of these is a class whose methods change its state, and each method is proved against a specification function:

- `PacketBuilder` and the JVM streams it writes to;
- a `java.nio.ByteBuffer`;
- the asynchronous socket, modelled as a `Channel` holding the bytes the peer will send, how many have been read, and everything written.

Modules, one per source file or concern:

| file | module | models |
|---|---|---|
| `bytes.dfy` | `Bytes` | bytes, results, the exceptions, array sizes as `Int` |
| `varint.dfy` | `VarInt` | `Encode`/`Decode`, the round trip and the byte-layout laws |
| `streams.dfy` | `Streams` | `DataOutputStream` / `DataInputStream`, big-endian shorts and longs |
| `packet_builder.dfy` | `Builder` | `PacketBuilder`, length-prefixed strings |
| `protocol.dfy` | `Protocol` | the five packets and their layouts |
| `network_utils.dfy` | `NetworkUtils` | framing, `ByteBuffer`, `Channel`, `decompressZlib` |
| `server_query.dfy` | `ServerQuery` | `MCServerQuery`: status query, login probe (`Login` spec), disconnect classifier |
| `server_ping.dfy` | `ServerPing` | `MinecraftServerPing` |
| `server_status.dfy` | `ServerStatus` | `MCServerStatus.equals` / `hashCode` |

The central result is `ServerQuery.MCServerQuery.CheckForEncryptionRequest`. Its loop is proved to behave exactly as the recursive specification `Login` says, on every input the server can send, for every way the socket splits that input into reads, and provided every array the server's sizes ask for can be allocated:

- the verdict equals `Login`'s verdict;
- the bytes consumed equal what `Login` consumes;
- the output gains exactly the framed replies `Login` lists.

Lemmas about `Login` then give the protocol facts:

- an encryption request means online mode;
- login success means offline mode;
- set-compression switches the threshold;
- plugin and cookie requests are answered with the same message id or key;
- every reply is a plugin or cookie response;
- any other id, or any failed read, ends with "unknown".

Where the code and the design description of the library disagree, the model follows the code:

- The VarInt readers have no five-byte cap. They stop only at a byte with a clear top bit, or when input runs out.
- `decompressZlib` never checks that inflation produced the declared length. It returns an array of exactly that length, zero-padded or cut.
- Replies sent after a set-compression packet are framed without the compressed-format data-length field.
- Compression counts as on for any threshold other than exactly -1. Negative thresholds other than -1 count too.
- Frame lengths are not checked against what is inside the frame. `parseResponse` ignores bytes after the JSON. `receiveStatusResponse` ignores the frame length altogether.
- `isEncrypted` does not turn failures outside the probe loop into "unknown". A missing username fails with the null-dereference error.

## Model

Source paths are relative to the repository root.

| member | source | states |
|---|---|---|
| Bytes.SizeRoundTrip | src/main/kotlin/com/kvxd/mcserverinfo/PacketBuilder.kt:25-26 | an array size below 2^31 is a non-negative `Int` standing for that very count |
| VarInt.EncodeSize | src/main/kotlin/com/kvxd/mcserverinfo/util/NetworkUtils.kt:27-38 | every 32-bit value encodes in 1 to 5 bytes, matching the size table; every negative value takes exactly 5 bytes |
| VarInt.EncodeFlags | src/main/kotlin/com/kvxd/mcserverinfo/util/NetworkUtils.kt:31-34 | every encoded byte but the last has bit 0x80 set; the last has it clear |
| VarInt.EncodeExamples | src/main/kotlin/com/kvxd/mcserverinfo/util/NetworkUtils.kt:29-35 | the encodings of 0, 1, 2, 300, 25565 and -1 (the last is `FF FF FF FF 0F`) |
| VarInt.EncodeSmall | src/main/kotlin/com/kvxd/mcserverinfo/util/NetworkUtils.kt:30-35 | a value below 0x80 is the single byte itself |
| VarInt.WriterStep | src/main/kotlin/com/kvxd/mcserverinfo/PacketBuilder.kt:14-21 | the writers' `(r and 0x7F) == r` test and their two `writeByte` branches produce `Encode`, and the loop variable shrinks |
| VarInt.DecodeStops | src/main/kotlin/com/kvxd/mcserverinfo/util/NetworkUtils.kt:19-23 | decoding ends at the first byte with a clear top bit, and fails exactly when no such byte remains |
| VarInt.DecodeEncodedAt | src/main/kotlin/com/kvxd/mcserverinfo/util/NetworkUtils.kt:15-25 | an encoding anywhere in a buffer decodes to its value and ends right after the encoding |
| VarInt.DecodeAt | src/main/kotlin/com/kvxd/mcserverinfo/util/NetworkUtils.kt:15-25 | the same round trip, for an encoding located by `At` |
| VarInt.DecodeEncode | src/main/kotlin/com/kvxd/mcserverinfo/util/NetworkUtils.kt:15-25 | `decode(prefix ++ encode(v) ++ rest)` at the prefix's end gives `v` and leaves `rest` unread |
| VarInt.EncodeInjective | src/main/kotlin/com/kvxd/mcserverinfo/util/NetworkUtils.kt:27-38 | different values never share an encoding |
| Streams.ShortBytesRoundTrip | src/main/kotlin/com/kvxd/mcserverinfo/PacketBuilder.kt:31-34 | `writeShort` writes 2 bytes, big-endian, which read back as the low 16 bits |
| Streams.LongBytesRoundTrip | src/main/kotlin/com/kvxd/mcserverinfo/PacketBuilder.kt:36-39 | `writeLong` writes 8 bytes, big-endian, which read back as the value |
| Streams.DataOutputStream.WriteByte | src/main/kotlin/com/kvxd/mcserverinfo/PacketBuilder.kt:16 | appends the low 8 bits of the `Int` and changes nothing else |
| Streams.DataOutputStream.Write | src/main/kotlin/com/kvxd/mcserverinfo/PacketBuilder.kt:27 | appends the bytes |
| Streams.DataOutputStream.WriteShort | src/main/kotlin/com/kvxd/mcserverinfo/PacketBuilder.kt:32 | appends the two big-endian bytes |
| Streams.DataOutputStream.WriteLong | src/main/kotlin/com/kvxd/mcserverinfo/PacketBuilder.kt:37 | appends the eight big-endian bytes |
| Streams.DataOutputStream.WriteBoolean | src/main/kotlin/com/kvxd/mcserverinfo/PacketBuilder.kt:42 | appends 1 for true, 0 for false |
| Streams.DataInputStream.ReadByte | src/main/kotlin/com/kvxd/mcserverinfo/MinecraftServerPing.kt:95 | the next byte and one step on, or end-of-stream with nothing consumed |
| Streams.DataInputStream.ReadFully | src/main/kotlin/com/kvxd/mcserverinfo/MinecraftServerPing.kt:72-73 | exactly the next `n` bytes, or end-of-stream with the stream exhausted |
| Builder.DecodeString | src/main/kotlin/com/kvxd/mcserverinfo/MCServerQuery.kt:157-161 | a string read succeeds only on bytes actually in the buffer, ending after them; otherwise underflow or negative size |
| Builder.StringEnd | src/main/kotlin/com/kvxd/mcserverinfo/MCServerQuery.kt:157-161 | where a string read leaves the buffer; on success, just after the string |
| Builder.DecodeStringField | src/main/kotlin/com/kvxd/mcserverinfo/PacketBuilder.kt:24-29 | a written string reads back as the same bytes, wherever it sits |
| Builder.StringFieldInjective | src/main/kotlin/com/kvxd/mcserverinfo/PacketBuilder.kt:24-29 | different strings never share a string field |
| Builder.PacketBuilder.constructor | src/main/kotlin/com/kvxd/mcserverinfo/PacketBuilder.kt:9-10 | a fresh builder over a fresh, empty stream |
| Builder.PacketBuilder.WriteVarInt | src/main/kotlin/com/kvxd/mcserverinfo/PacketBuilder.kt:12-22 | appends exactly `Encode(value)`, keeps what was written, returns the same builder |
| Builder.PacketBuilder.WriteString | src/main/kotlin/com/kvxd/mcserverinfo/PacketBuilder.kt:24-29 | appends the VarInt byte count, then the bytes; returns the same builder |
| Builder.PacketBuilder.WriteShort | src/main/kotlin/com/kvxd/mcserverinfo/PacketBuilder.kt:31-34 | appends the 2 big-endian bytes; returns the same builder |
| Builder.PacketBuilder.WriteLong | src/main/kotlin/com/kvxd/mcserverinfo/PacketBuilder.kt:36-39 | appends the 8 big-endian bytes; returns the same builder |
| Builder.PacketBuilder.WriteBoolean | src/main/kotlin/com/kvxd/mcserverinfo/PacketBuilder.kt:41-44 | appends one byte, 1 or 0; returns the same builder |
| Builder.PacketBuilder.ToByteArray | src/main/kotlin/com/kvxd/mcserverinfo/PacketBuilder.kt:46 | everything written, in order, with the builder unchanged (so calling it twice gives the same bytes) |
| Protocol.IdByte | src/main/kotlin/com/kvxd/mcserverinfo/protocol/HandshakePacket.kt:14 | a packet id below 0x80 is one byte |
| Protocol.HandshakeBytes | src/main/kotlin/com/kvxd/mcserverinfo/protocol/HandshakePacket.kt:13-19 | the handshake is 1 byte of id, then the VarInt of the version, the VarInt of the address length, the address, 2 bytes of port and the VarInt of the next state long |
| Protocol.HandshakeToByteArray | src/main/kotlin/com/kvxd/mcserverinfo/protocol/HandshakePacket.kt:12-20 | the builder chain produces id 0, version, address, port, next state, in that order |
| Protocol.ReadHandshakeBytes | src/main/kotlin/com/kvxd/mcserverinfo/protocol/HandshakePacket.kt:13-19 | reading the handshake back recovers version, address, port mod 2^16 and next state, consuming everything |
| Protocol.ReadHandshakeAt | src/main/kotlin/com/kvxd/mcserverinfo/protocol/HandshakePacket.kt:13-19 | the same read-back, for a buffer known field by field |
| Protocol.ReadHandshakeFields | src/main/kotlin/com/kvxd/mcserverinfo/protocol/HandshakePacket.kt:13-19 | the read-back succeeds when each field decodes in turn and the last one ends the buffer |
| Protocol.VarIntAt | src/main/kotlin/com/kvxd/mcserverinfo/PacketBuilder.kt:12-22 | a VarInt field decodes back at the position it was written to |
| Protocol.StringAt | src/main/kotlin/com/kvxd/mcserverinfo/PacketBuilder.kt:24-29 | a string field decodes back at the position it was written to |
| Protocol.ShortAt | src/main/kotlin/com/kvxd/mcserverinfo/PacketBuilder.kt:31-34 | a short field reads back as the low 16 bits |
| Protocol.HandshakeLatestVersion | src/main/kotlin/com/kvxd/mcserverinfo/MCServerQuery.kt:62 | with protocol version -1 the handshake starts `00 FF FF FF FF 0F` |
| Protocol.HandshakeEndsWithState | src/main/kotlin/com/kvxd/mcserverinfo/protocol/HandshakePacket.kt:18 | a next state below 0x80 is the single last byte |
| Protocol.StatusRequestToByteArray | src/main/kotlin/com/kvxd/mcserverinfo/protocol/StatusRequestPacket.kt:7-11 | the builder chain produces the status request's bytes |
| Protocol.StatusRequestLayout | src/main/kotlin/com/kvxd/mcserverinfo/protocol/StatusRequestPacket.kt:8-10 | every status request is exactly `[0x00]`, decodes as id 0 with nothing left, and is framed as `[0x01, 0x00]` |
| Protocol.LoginStartToByteArray | src/main/kotlin/com/kvxd/mcserverinfo/protocol/LoginStartPacket.kt:12-27 | the builder block produces id 0, the username, and the UUID longs only when the version carries them |
| Protocol.LoginStartPrefix | src/main/kotlin/com/kvxd/mcserverinfo/protocol/LoginStartPacket.kt:20-21 | login start begins with id 0 and the username string |
| Protocol.LoginStartUuid | src/main/kotlin/com/kvxd/mcserverinfo/protocol/LoginStartPacket.kt:13-14 | from version 761, 16 more bytes follow: the name UUID of `"OfflinePlayer:" + username`, high long then low long, big-endian |
| Protocol.LoginStartWithoutUuid | src/main/kotlin/com/kvxd/mcserverinfo/protocol/LoginStartPacket.kt:15-16 | below 761, nothing follows the username, whatever the UUID function |
| Protocol.LoginStartLengths | src/main/kotlin/com/kvxd/mcserverinfo/protocol/LoginStartPacket.kt:22-25 | for one username, a UUID-carrying version gives a packet exactly 16 bytes longer |
| Protocol.CarriesUuidBoundary | src/main/kotlin/com/kvxd/mcserverinfo/protocol/LoginStartPacket.kt:13 | 761 carries the UUID; 760 and -1 do not |
| Protocol.LoginPluginResponseToByteArray | src/main/kotlin/com/kvxd/mcserverinfo/protocol/LoginPluginResponsePacket.kt:7-13 | the builder chain produces the plugin response's bytes |
| Protocol.LoginPluginResponseLayout | src/main/kotlin/com/kvxd/mcserverinfo/protocol/LoginPluginResponsePacket.kt:8-12 | id 2, the message id reading back, then a final 0; two bytes longer than the message id's VarInt, so 3 bytes below 0x80 |
| Protocol.CookieResponseToByteArray | src/main/kotlin/com/kvxd/mcserverinfo/protocol/CookieResponsePacket.kt:7-13 | the builder chain produces the cookie response's bytes |
| Protocol.CookieResponseLayout | src/main/kotlin/com/kvxd/mcserverinfo/protocol/CookieResponsePacket.kt:8-12 | id 4, then the key (which reads back as the key, leaving one byte), then a final 0; two bytes longer than the key's string field |
| NetworkUtils.FramedAppend | src/main/kotlin/com/kvxd/mcserverinfo/util/NetworkUtils.kt:76-86 | sending one more packet appends exactly its frame |
| NetworkUtils.FrameDecode | src/main/kotlin/com/kvxd/mcserverinfo/util/NetworkUtils.kt:77-82 | a frame's length prefix decodes to the packet's length, which is followed by the packet |
| NetworkUtils.IncomingFrame | src/main/kotlin/com/kvxd/mcserverinfo/MCServerQuery.kt:110-121 | a received frame is exactly the bytes after its length prefix, and reading never goes past the input |
| NetworkUtils.IncomingFrameOf | src/main/kotlin/com/kvxd/mcserverinfo/MCServerQuery.kt:110-121 | a frame as `sendPacket` builds it is received as its packet, ending right after the frame |
| NetworkUtils.EncodeVarInt | src/main/kotlin/com/kvxd/mcserverinfo/util/NetworkUtils.kt:27-38 | the do-while into a 5-byte buffer yields exactly `Encode(value)` |
| NetworkUtils.Fit | src/main/kotlin/com/kvxd/mcserverinfo/util/NetworkUtils.kt:44-45 | inflating into an `n`-byte array: `n` bytes, the inflated ones first, then zeros |
| NetworkUtils.DecompressZlib | src/main/kotlin/com/kvxd/mcserverinfo/util/NetworkUtils.kt:40-52 | succeeds exactly when the length is non-negative and the one `inflate` call into that many bytes meets no format error, a stream cut short included; the result has exactly the declared length; a negative length and a format error are the two errors |
| NetworkUtils.DecompressKeepsInflated | src/main/kotlin/com/kvxd/mcserverinfo/util/NetworkUtils.kt:44-46 | the result is the output of the one `inflate` call, then zeros up to the declared length |
| NetworkUtils.ByteBuffer.Remaining | src/main/kotlin/com/kvxd/mcserverinfo/MCServerQuery.kt:127 | position plus remaining is the buffer's length |
| NetworkUtils.ByteBuffer.GetByte | src/main/kotlin/com/kvxd/mcserverinfo/util/NetworkUtils.kt:20 | the next byte and one step on, or underflow with the position unchanged |
| NetworkUtils.ByteBuffer.Get | src/main/kotlin/com/kvxd/mcserverinfo/MCServerQuery.kt:159 | exactly the next `n` bytes, or underflow with the position unchanged |
| NetworkUtils.ByteBuffer.Slice | src/main/kotlin/com/kvxd/mcserverinfo/MCServerQuery.kt:125 | a fresh buffer over the remaining bytes, at position 0 |
| NetworkUtils.ByteBuffer.ReadVarInt | src/main/kotlin/com/kvxd/mcserverinfo/util/NetworkUtils.kt:15-25 | the loop returns `Decode`'s value and stops just after it; when no end byte remains, underflow with the buffer exhausted |
| NetworkUtils.Channel.constructor | src/main/kotlin/com/kvxd/mcserverinfo/MCServerQuery.kt:45-47 | a connected channel: nothing read, nothing written |
| NetworkUtils.Channel.Read | src/main/kotlin/com/kvxd/mcserverinfo/util/NetworkUtils.kt:71 | one socket read: -1 at end of stream, otherwise 1 or more of the next bytes placed into the buffer |
| NetworkUtils.Channel.Write | src/main/kotlin/com/kvxd/mcserverinfo/util/NetworkUtils.kt:84 | one socket write: 1 or more bytes of the buffer appended to the output |
| NetworkUtils.Channel.ReadFully | src/main/kotlin/com/kvxd/mcserverinfo/util/NetworkUtils.kt:69-74 | fills the buffer with exactly the next bytes, or fails with end-of-stream having read everything left |
| NetworkUtils.Channel.ReadVarInt | src/main/kotlin/com/kvxd/mcserverinfo/util/NetworkUtils.kt:54-67 | byte by byte, the same value and end position as `ByteBuffer.readVarInt` on the same bytes; end-of-stream when no end byte comes |
| NetworkUtils.Channel.SendPacket | src/main/kotlin/com/kvxd/mcserverinfo/util/NetworkUtils.kt:76-86 | the write loop ends with exactly `VarInt(size) ++ packet` appended to the output |
| ServerQuery.ContainsAt | src/main/kotlin/com/kvxd/mcserverinfo/MCServerQuery.kt:184 | a pattern sitting somewhere in a reason is contained in it |
| ServerQuery.ContainsWithin | src/main/kotlin/com/kvxd/mcserverinfo/MCServerQuery.kt:184-186 | containment survives text added on either side |
| ServerQuery.UnverifiedUsernameWins | src/main/kotlin/com/kvxd/mcserverinfo/MCServerQuery.kt:184-187 | a reason with the unverified-username marker is offline mode even when "Double login" follows |
| ServerQuery.DoubleLoginUnknown | src/main/kotlin/com/kvxd/mcserverinfo/MCServerQuery.kt:186-187 | "Double login" without the unverified-username marker is unknown |
| ServerQuery.ShortReasonOnline | src/main/kotlin/com/kvxd/mcserverinfo/MCServerQuery.kt:188-189 | a reason too short for either marker means online mode |
| ServerQuery.OfflineWithin | src/main/kotlin/com/kvxd/mcserverinfo/MCServerQuery.kt:184-185 | an offline-mode reason stays offline with text added around it |
| ServerQuery.NextPacket | src/main/kotlin/com/kvxd/mcserverinfo/MCServerQuery.kt:110-135 | reading a packet never goes past the input, and a successful read consumes at least one byte |
| ServerQuery.DataLengthZero | src/main/kotlin/com/kvxd/mcserverinfo/MCServerQuery.kt:123-124 | a zero data-length field is the single byte 0 |
| ServerQuery.UnwrapUncompressed | src/main/kotlin/com/kvxd/mcserverinfo/MCServerQuery.kt:123-125 | with compression on, data length 0 makes the packet the rest of the frame |
| ServerQuery.UnwrapCompressed | src/main/kotlin/com/kvxd/mcserverinfo/MCServerQuery.kt:126-130 | with compression on, a non-zero data length makes the packet the decompressed rest, of exactly that length |
| ServerQuery.LoginRound | src/main/kotlin/com/kvxd/mcserverinfo/MCServerQuery.kt:109-148 | one round of the probe never reads past the input, and a round that goes on consumes at least one byte |
| ServerQuery.RoundOf | src/main/kotlin/com/kvxd/mcserverinfo/MCServerQuery.kt:137-147 | a round ends just after its frame, whatever it does |
| ServerQuery.Login | src/main/kotlin/com/kvxd/mcserverinfo/MCServerQuery.kt:105-154 | the whole probe consumes only bytes the server sent |
| ServerQuery.LoginContinues | src/main/kotlin/com/kvxd/mcserverinfo/MCServerQuery.kt:141-146 | a round that goes on contributes its replies to the probe, which continues after it |
| ServerQuery.LoginStops | src/main/kotlin/com/kvxd/mcserverinfo/MCServerQuery.kt:138-140 | a round that stops ends the probe with its verdict and no further replies |
| ServerQuery.ThenThen | src/main/kotlin/com/kvxd/mcserverinfo/MCServerQuery.kt:145-146 | replies from successive rounds accumulate in order |
| ServerQuery.ThenNothing | src/main/kotlin/com/kvxd/mcserverinfo/MCServerQuery.kt:141-143 | a round without replies leaves the probe's replies as they are |
| ServerQuery.LoginAtEnd | src/main/kotlin/com/kvxd/mcserverinfo/MCServerQuery.kt:151-153 | with nothing left to read, the probe's verdict is unknown and nothing is sent |
| ServerQuery.LoginReplies | src/main/kotlin/com/kvxd/mcserverinfo/MCServerQuery.kt:145-146 | everything the probe sends is a plugin response or a cookie response (id 2 or 4, last byte 0) |
| ServerQuery.RoundReplies | src/main/kotlin/com/kvxd/mcserverinfo/MCServerQuery.kt:145-146 | the same, for one round |
| ServerQuery.ReplyShape | src/main/kotlin/com/kvxd/mcserverinfo/MCServerQuery.kt:163-177 | the reply to any packet is a plugin or cookie response |
| ServerQuery.CookieResponseShape | src/main/kotlin/com/kvxd/mcserverinfo/MCServerQuery.kt:175 | a cookie response starts with id 4 and ends with 0 |
| ServerQuery.DecodeId | src/main/kotlin/com/kvxd/mcserverinfo/MCServerQuery.kt:137 | a one-byte packet id reads as that id |
| ServerQuery.RoundOnFrame | src/main/kotlin/com/kvxd/mcserverinfo/MCServerQuery.kt:110-148 | a round on a well-formed frame acts on the packet inside it and ends after the frame |
| ServerQuery.VerdictIds | src/main/kotlin/com/kvxd/mcserverinfo/MCServerQuery.kt:139-140 | id 1 means online mode and id 2 offline mode, whatever follows |
| ServerQuery.LoginEndsOnFrame | src/main/kotlin/com/kvxd/mcserverinfo/MCServerQuery.kt:138-153 | a verdict packet or a failure ends the probe right after its frame, with no replies; a failure gives unknown |
| ServerQuery.LoginGoesOnFrame | src/main/kotlin/com/kvxd/mcserverinfo/MCServerQuery.kt:141-146 | set-compression continues with the new threshold; a request continues after its one reply, threshold unchanged |
| ServerQuery.LoginSuccessIsOffline | src/main/kotlin/com/kvxd/mcserverinfo/MCServerQuery.kt:140 | a login-success frame ends the probe at once: offline mode, nothing sent |
| ServerQuery.EncryptionRequestIsOnline | src/main/kotlin/com/kvxd/mcserverinfo/MCServerQuery.kt:139 | an encryption-request frame ends the probe at once: online mode, nothing sent |
| ServerQuery.SetCompressionAction | src/main/kotlin/com/kvxd/mcserverinfo/MCServerQuery.kt:141-143 | a set-compression packet sets the threshold it carries |
| ServerQuery.PluginRequestFields | src/main/kotlin/com/kvxd/mcserverinfo/MCServerQuery.kt:164-166 | a plugin request's message id and channel read back |
| ServerQuery.PluginRequestAction | src/main/kotlin/com/kvxd/mcserverinfo/MCServerQuery.kt:163-170 | a plugin request is answered with a plugin response for the same message id, whatever its payload |
| ServerQuery.CookieRequestFields | src/main/kotlin/com/kvxd/mcserverinfo/MCServerQuery.kt:173 | a cookie request's key reads back |
| ServerQuery.CookieRequestAction | src/main/kotlin/com/kvxd/mcserverinfo/MCServerQuery.kt:172-177 | a cookie request is answered with a cookie response for the same key |
| ServerQuery.UnknownIdAborts | src/main/kotlin/com/kvxd/mcserverinfo/MCServerQuery.kt:147 | any decoded id above 5 as an unsigned 32-bit value (multi-byte, overlong and negative ids included) is refused with that id |
| ServerQuery.UnknownEncodedIdAborts | src/main/kotlin/com/kvxd/mcserverinfo/MCServerQuery.kt:147 | a packet starting with the VarInt of any id above 5, negative ids included, is refused with that id |
| ServerQuery.StatusResponseOf | src/main/kotlin/com/kvxd/mcserverinfo/MCServerQuery.kt:212-226 | a status response frame (id 0, JSON string) is read as that JSON, ending after the frame |
| ServerQuery.StatusWrongId | src/main/kotlin/com/kvxd/mcserverinfo/MCServerQuery.kt:220-221 | a status packet whose decoded id is not 0, however it is encoded, is refused with that id |
| ServerQuery.MCServerQuery.constructor | src/main/kotlin/com/kvxd/mcserverinfo/MCServerQuery.kt:21-24 | the configured address, port, username and the two foreign functions |
| ServerQuery.MCServerQuery.SendHandshake | src/main/kotlin/com/kvxd/mcserverinfo/MCServerQuery.kt:69-78 | sends exactly the framed handshake with the given version and next state 1 |
| ServerQuery.MCServerQuery.SendStatusRequest | src/main/kotlin/com/kvxd/mcserverinfo/MCServerQuery.kt:80-83 | sends exactly the framed status request |
| ServerQuery.MCServerQuery.SendLoginHandshake | src/main/kotlin/com/kvxd/mcserverinfo/MCServerQuery.kt:85-94 | sends exactly the framed handshake with the given version and next state 2 |
| ServerQuery.MCServerQuery.SendLoginStart | src/main/kotlin/com/kvxd/mcserverinfo/MCServerQuery.kt:96-103 | sends the framed login start for the configured username; with none configured, fails and sends nothing |
| ServerQuery.MCServerQuery.SendPacket | src/main/kotlin/com/kvxd/mcserverinfo/MCServerQuery.kt:192-203 | appends exactly `VarInt(size) ++ packet`, like `NetworkUtils.sendPacket` |
| ServerQuery.MCServerQuery.ReadFrame | src/main/kotlin/com/kvxd/mcserverinfo/MCServerQuery.kt:110-116 | the length, a buffer of that size read to completion: exactly `IncomingFrame` |
| ServerQuery.MCServerQuery.ReadPacket | src/main/kotlin/com/kvxd/mcserverinfo/MCServerQuery.kt:110-135 | one frame, unwrapped as the threshold says, in a fresh buffer at position 0: exactly `NextPacket` |
| ServerQuery.MCServerQuery.UnwrapFrame | src/main/kotlin/com/kvxd/mcserverinfo/MCServerQuery.kt:112-135 | the buffer holds exactly what `Unwrap` says, or fails with its error |
| ServerQuery.MCServerQuery.ReadString | src/main/kotlin/com/kvxd/mcserverinfo/MCServerQuery.kt:157-161 | the string `DecodeString` reads, or its error, with the position where the read stops |
| ServerQuery.MCServerQuery.HandleDisconnect | src/main/kotlin/com/kvxd/mcserverinfo/MCServerQuery.kt:179-190 | the reason read from the buffer, classified; or the read's error |
| ServerQuery.MCServerQuery.HandleLoginPluginRequest | src/main/kotlin/com/kvxd/mcserverinfo/MCServerQuery.kt:163-170 | sends exactly the framed reply for the request's message id and consumes the payload, or fails and sends nothing |
| ServerQuery.MCServerQuery.HandleCookieRequest | src/main/kotlin/com/kvxd/mcserverinfo/MCServerQuery.kt:172-177 | sends exactly the framed reply for the requested key, or fails and sends nothing |
| ServerQuery.MCServerQuery.Dispatch | src/main/kotlin/com/kvxd/mcserverinfo/MCServerQuery.kt:137-148 | the dispatch on the packet id does what `LoginAction` says and sends a frame only for a reply |
| ServerQuery.MCServerQuery.LoginTurn | src/main/kotlin/com/kvxd/mcserverinfo/MCServerQuery.kt:110-148 | one turn of the loop is one `LoginRound`: same end position, same outcome, only its reply sent |
| ServerQuery.MCServerQuery.CheckForEncryptionRequest | src/main/kotlin/com/kvxd/mcserverinfo/MCServerQuery.kt:105-154 | starting at threshold -1, the loop ends with `Login`'s verdict, having read what `Login` reads and sent exactly its framed replies; every `Exception` it meets becomes "unknown", so it never fails (allocations assumed to succeed) |
| ServerQuery.MCServerQuery.ParseResponse | src/main/kotlin/com/kvxd/mcserverinfo/MCServerQuery.kt:212-229 | the JSON bytes of the status frame, or its error: exactly `StatusResponse` |
| ServerQuery.MCServerQuery.Query | src/main/kotlin/com/kvxd/mcserverinfo/MCServerQuery.kt:56-67 | sends the handshake with version -1 and next state 1, then the status request, and reads the status response |
| ServerQuery.MCServerQuery.IsEncrypted | src/main/kotlin/com/kvxd/mcserverinfo/MCServerQuery.kt:41-54 | sends the login handshake and login start, then the probe's replies, and returns the probe's verdict; without a username, fails after the handshake |
| ServerPing.SignedStep | src/main/kotlin/com/kvxd/mcserverinfo/MinecraftServerPing.kt:95-98 | a byte widened with its sign contributes the same seven bits and the same continuation bit as the raw byte |
| ServerPing.PingResponse | src/main/kotlin/com/kvxd/mcserverinfo/MinecraftServerPing.kt:63-76 | the response read stays within the input, and the JSON is exactly the bytes read last |
| ServerPing.PingResponseFields | src/main/kotlin/com/kvxd/mcserverinfo/MinecraftServerPing.kt:64-73 | frame length, id 0 and a JSON string read in turn give that JSON |
| ServerPing.PingResponseOf | src/main/kotlin/com/kvxd/mcserverinfo/MinecraftServerPing.kt:63-76 | a status response is read as its JSON whatever the frame length says, ending after the JSON |
| ServerPing.PingWrongId | src/main/kotlin/com/kvxd/mcserverinfo/MinecraftServerPing.kt:67-69 | a decoded packet id other than 0, however it is encoded, is refused with that id, right after the id is read |
| ServerPing.MinecraftServerPing.constructor | src/main/kotlin/com/kvxd/mcserverinfo/MinecraftServerPing.kt:11-17 | the address, the port, and protocol version -1 |
| ServerPing.MinecraftServerPing.SendHandshake | src/main/kotlin/com/kvxd/mcserverinfo/MinecraftServerPing.kt:43-53 | writes exactly the framed status handshake (version -1, next state 1), though the builder is read twice |
| ServerPing.MinecraftServerPing.HandshakeBuilder | src/main/kotlin/com/kvxd/mcserverinfo/MinecraftServerPing.kt:44-49 | the builder chain holds exactly the handshake's bytes |
| ServerPing.MinecraftServerPing.SendStatusRequest | src/main/kotlin/com/kvxd/mcserverinfo/MinecraftServerPing.kt:55-61 | writes exactly `[0x01, 0x00]` |
| ServerPing.MinecraftServerPing.ReceiveStatusResponse | src/main/kotlin/com/kvxd/mcserverinfo/MinecraftServerPing.kt:63-76 | the stream reads do exactly what `PingResponse` says, result and position |
| ServerPing.MinecraftServerPing.WriteVarInt | src/main/kotlin/com/kvxd/mcserverinfo/MinecraftServerPing.kt:78-88 | writes exactly `Encode(value)`, the same bytes as `PacketBuilder.writeVarInt` |
| ServerPing.MinecraftServerPing.ReadVarInt | src/main/kotlin/com/kvxd/mcserverinfo/MinecraftServerPing.kt:90-100 | reading signed bytes gives `Decode`'s value and position; end-of-stream when no end byte comes |
| ServerPing.MinecraftServerPing.WriteThenRead | src/main/kotlin/com/kvxd/mcserverinfo/MinecraftServerPing.kt:78-100 | the stream reader reads back what the stream writer wrote, negative values included, and nothing is left over |
| ServerStatus.DefaultStatus | src/main/kotlin/com/kvxd/mcserverinfo/MCServerStatus.kt:5-11 | the defaults: version ("", -1), no players, empty text, no favicon, no secure chat |
| ServerStatus.EqualsExactly | src/main/kotlin/com/kvxd/mcserverinfo/MCServerStatus.kt:15-30 | two statuses are equal exactly when they agree on everything but `enforcesSecureChat` |
| ServerStatus.IgnoresSecureChat | src/main/kotlin/com/kvxd/mcserverinfo/MCServerStatus.kt:15-30 | changing only `enforcesSecureChat` keeps the status equal |
| ServerStatus.FaviconByContent | src/main/kotlin/com/kvxd/mcserverinfo/MCServerStatus.kt:24-27 | favicons compare by content; null equals only null |
| ServerStatus.NotEqualToNull | src/main/kotlin/com/kvxd/mcserverinfo/MCServerStatus.kt:17 | no status equals null |
| ServerStatus.EqualsReflexive | src/main/kotlin/com/kvxd/mcserverinfo/MCServerStatus.kt:16 | every status equals itself |
| ServerStatus.EqualsSymmetric | src/main/kotlin/com/kvxd/mcserverinfo/MCServerStatus.kt:21-27 | equality is symmetric |
| ServerStatus.EqualsTransitive | src/main/kotlin/com/kvxd/mcserverinfo/MCServerStatus.kt:21-27 | equality is transitive |
| ServerStatus.HashCodeConsistent | src/main/kotlin/com/kvxd/mcserverinfo/MCServerStatus.kt:32-38 | equal statuses have equal hash codes |
| ServerStatus.NullFaviconHash | src/main/kotlin/com/kvxd/mcserverinfo/MCServerStatus.kt:36 | a null favicon contributes 0 and an empty one 1, so otherwise equal statuses hash exactly 1 apart |
| ServerStatus.ContentHashAppend | src/main/kotlin/com/kvxd/mcserverinfo/MCServerStatus.kt:36 | one more favicon byte steps the hash as `31 * h + byte`, in 32-bit arithmetic |
| ServerStatus.ContentHashSnoc | src/main/kotlin/com/kvxd/mcserverinfo/MCServerStatus.kt:36 | the content hash of a longer array is one step on from the shorter one |
| ServerStatus.SignedContentHash | src/main/kotlin/com/kvxd/mcserverinfo/MCServerStatus.kt:36 | bytes count with their sign: 0x80 hashes as -128, 0x7F as 127 |
| ServerStatus.StringHashAppend | src/main/kotlin/com/kvxd/mcserverinfo/MCServerStatus.kt:33 | one more code unit of the version name steps the hash as `31 * h + c` |
| ServerStatus.StringHashSnoc | src/main/kotlin/com/kvxd/mcserverinfo/MCServerStatus.kt:33 | the string hash of a longer name is one step on from the shorter one |

## Left out

- Socket connection, timeouts and coroutines are not modelled. This covers `withTimeout`, `.get(timeout, …)`, `connect`, `isReachable` and `ping`'s socket handling. A connected socket is the `Channel` class. Each read or write moves at least one byte and at most `readChunk` or `writeChunk`; callers may rely on nothing more about the count, so their results hold for every such schedule.
- JSON and rich-text parsing are not modelled: Gson's `fromJson` on the status JSON, and `GsonComponentSerializer`. The status flows return the JSON bytes.
- zlib inflation (RFC 1950) is the function parameter `Inflate`, because a decompressor is foreign code. Given the compressed bytes and the array size `n`, it gives what one `Inflater.inflate` call writes into an `n`-byte array, or none when that call meets a format error. Input that ends early is not an error, so a truncated stream gives the bytes produced so far. That the function never gives more than `n` bytes is not stated; `Fit` cuts any excess.
- `UUID.nameUUIDFromBytes` (an MD5 name-based UUID, section 4.3 of RFC 4122) is the function parameter `NameUuid`.
- Kotlin strings are modelled as their UTF-8 bytes. UTF-8 encoding and decoding are not modelled, and `String.contains` is a search over those bytes. The version name in `MCServerStatus` is a sequence of UTF-16 code units, as `String.hashCode` sees it.
- The description `Component` of `MCServerStatus` is a type parameter with its own equality. Its `hashCode` is a given function.
- `MCServerQueryConfiguration` is reduced to the fields the core reads: address, port and username. The timeout belongs to the socket layer, which is left out.
- Logging (`println`) is not modelled, because it has no effect on results.
- Allocations of sizes the server sends are assumed to succeed: `ByteBuffer.allocate(packetLength)` at MCServerQuery.kt:113-118, `ByteArray(length)` at MCServerQuery.kt:159 and `ByteArray(expectedLength)` at NetworkUtils.kt:44. On a JVM a size near 2^31 throws `OutOfMemoryError`, which `catch (e: Exception)` does not catch, so `isEncrypted` would throw where the model reads on to end-of-stream or underflow and "unknown".
- JVM array limits are assumed: a size or length is the `Int` `SizeOf(n)`, which stands for `n` when `n < 2^31`. Lemmas about written strings and frames require lengths below 2^31, because no JVM array can be longer.
- The data-class parts of `MCServerStatus` are not modelled: `copy`, `toString`, `componentN` and the mutability of its `var` fields. `equals` and `hashCode` are modelled.
- ServerStatus.Equals: the `this === other` shortcut is not modelled, because identity equality implies all fields are equal. An object of another class is modelled, like `null`, as `None`.
- ServerQuery.MCServerQuery.IsEncrypted: is given the protocol version. It does not run `query()` first to learn it, because that needs the JSON parsing that is left out.
- ServerQuery.MCServerQuery.SendPacket and the private `readFully` of `MCServerQuery.kt`: both reuse the `Channel` algorithms (`SendPacket`, `ReadFully`). Their loops are the same as those in `NetworkUtils.kt`.
- A 5-byte VarInt cap is not modelled, because the source has none. Decoding ends only at a byte without the continuation bit, or when input runs out.
- The test sources are not modelled, because they need live servers.
