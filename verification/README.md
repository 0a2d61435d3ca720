# PiLED protocol engine in Dafny

This project models the client-side protocol engine of PiLED, an Android app
that drives an addressable-LED controller over a persistent TCP connection.
The engine lives in the `PiLED` object and the `OP` enum. It does four things:

- **Frame codec.** It builds an 18-byte header: a big-endian 64-bit
  timestamp in seconds, a big-endian 64-bit random nonce, protocol version 4
  and the opcode. It then lays out a packet as
  `header ‖ HMAC-SHA256(secret, header ‖ payload) ‖ payload`.
- **Command encoder.** Each command has a fixed opcode and payload layout:
  - set-colour: `[r,g,b,0,0]`;
  - fade and pulse: `[r,g,b,duration,speed]`;
  - toggle-suspend: a fixed marker;
  - get-colour: an empty payload.
- **Inbound dispatch.** It reads byte 17 of each received chunk as the
  opcode. Only the colour-changed push (opcode 5) changes state: it takes the
  new colour from bytes 50..52.
- **Connection and credential state.** This covers `connect`, `disconnect`,
  the effect of a failed send, the listener loop, and the guard that re-reads
  the shared secret before every command and refuses to build a packet
  without one.

Modules:

- `Bytes` (`bytes.dfy`): unsigned bytes and Kotlin's truncating `toByte()`.
  Also the signed `Byte.toInt()` and the big-endian two's-complement `Long`
  layout of `ByteBuffer.putLong`, with both round trips and a per-byte
  digit characterisation.
- `Frame` (`frame.dfy`): opcodes, the header, packet assembly, and the
  receiver's split of a frame at the fixed offsets.
- `Commands` (`commands.dfy`): payload layouts, plus a decoder used as the
  reference the encoder is checked against.
- `Inbound` (`inbound.dfy`): `handleReceivedData`.
- `Session` (`session.dfy`): the session record, its transitions, the
  per-command functions and the listener loop.
- `Wrappers` (`wrappers.dfy`): `Option` and `Result`.

Effects and the environment are parameters:

- the clock reading and the nonce (`timestamp`, `nonce`);
- the HMAC (`mac: Hmac`, any total function whose result is 32 bytes);
- the secret found in the settings store (`stored`);
- whether the TCP connect succeeds (`ConnectOutcome`);
- whether a write throws (`writeFails`);
- what each blocking read returns (`ReadResult`).

## Model

| member | source | states |
|---|---|---|
| Bytes.ToByte | app/src/main/java/dev/polisan/piled/PiLED.kt:209-211 | `toByte()` keeps the value modulo 256: the result differs from the argument by a multiple of 256, and values already in 0..255 are unchanged |
| Bytes.Signed | app/src/main/java/dev/polisan/piled/PiLED.kt:162-163 | `Byte.toInt()` gives a value in -128..127 whose low byte is the original byte |
| Bytes.SignedInjective | app/src/main/java/dev/polisan/piled/PiLED.kt:163-167 | comparing the sign-extended opcode with an opcode value is the same as comparing the bytes |
| Bytes.ParseUintBE_UintBE | app/src/main/java/dev/polisan/piled/PiLED.kt:242-243 | reading back an n-byte big-endian encoding yields the encoded value |
| Bytes.UintBE_ParseUintBE | app/src/main/java/dev/polisan/piled/PiLED.kt:242-243 | every byte string is the big-endian encoding of the value it reads as |
| Bytes.UintBE_Digit | app/src/main/java/dev/polisan/piled/PiLED.kt:242-243 | byte i of the encoding is base-256 digit n-1-i, so the most significant byte comes first |
| Bytes.EncodeInt64 | app/src/main/java/dev/polisan/piled/PiLED.kt:242-243 | `putLong` writes exactly 8 bytes, and reading them back as a signed big-endian `Long` gives the original value |
| Bytes.Int64RoundTrip | app/src/main/java/dev/polisan/piled/PiLED.kt:242-243 | decoding the 8 bytes `putLong` writes returns the original signed 64-bit value |
| Bytes.Int64RoundTripBytes | app/src/main/java/dev/polisan/piled/PiLED.kt:242-243 | every 8-byte string is the `putLong` image of its decoded value, so the layout is a bijection |
| Bytes.Int64Digit | app/src/main/java/dev/polisan/piled/PiLED.kt:242-243 | byte i of a `Long`'s encoding is digit 7-i of the value modulo 2^64, the two's-complement representation |
| Bytes.Int64SignBit | app/src/main/java/dev/polisan/piled/PiLED.kt:242-243 | the first byte has its top bit set exactly when the value is negative |
| Frame.Op.Value | app/src/main/java/dev/polisan/piled/PiLED.kt:26-33 | every opcode is below 6, and 5 is the colour-changed push and no other operation |
| Frame.OpOfValue | app/src/main/java/dev/polisan/piled/PiLED.kt:26-33 | exactly the values 0..5 are opcodes, and each maps back to an operation with that value |
| Frame.OpValueInjective | app/src/main/java/dev/polisan/piled/PiLED.kt:26-33 | the six opcodes are pairwise distinct, so each value names one operation |
| Frame.GenerateHeader | app/src/main/java/dev/polisan/piled/PiLED.kt:239-245 | the header is 18 bytes, byte 16 is version 4, byte 17 is the opcode, and parsing it returns the timestamp, nonce, version and opcode |
| Frame.HeaderDigits | app/src/main/java/dev/polisan/piled/PiLED.kt:242-244 | bytes 0..7 and 8..15 are the big-endian two's-complement digits of the timestamp and the nonce |
| Frame.HeaderFromParsed | app/src/main/java/dev/polisan/piled/PiLED.kt:239-245 | every 18-byte string with version 4 and a known opcode is the header generated from its own parsed fields |
| Frame.CreatePacket | app/src/main/java/dev/polisan/piled/PiLED.kt:247-251 | with a secret, the packet has length header+32+payload, an unchanged header prefix, the MAC of header‖payload next, and an unchanged payload suffix; without a secret it is empty |
| Frame.PacketRoundTrip | app/src/main/java/dev/polisan/piled/PiLED.kt:247-251 | splitting a built packet at offsets 18 and 50 recovers the header fields, the tag and the payload, and the tag verifies under the secret |
| Commands.OpOf | app/src/main/java/dev/polisan/piled/PiLED.kt:182-233 | set-colour sends opcode 0, get-colour 1, fade 2, pulse 3 and toggle-suspend 4, each exactly; no command uses the push opcode 5 |
| Commands.Payload | app/src/main/java/dev/polisan/piled/PiLED.kt:182-233 | set-colour is `[r,g,b,0,0]`; fade and pulse are `[r,g,b,duration,speed]`, each cut to a byte; toggle-suspend is `[209,0,255,3,0]`; get-colour is empty |
| Commands.DecodeEncode | app/src/main/java/dev/polisan/piled/PiLED.kt:182-233 | a receiver decoding a command's opcode and payload gets the command back, with its arguments truncated to bytes |
| Commands.EncodeDecode | app/src/main/java/dev/polisan/piled/PiLED.kt:182-233 | whatever decodes re-encodes to the same opcode and payload, so the layouts do not overlap |
| Commands.EncodingDeterminedByBytes | app/src/main/java/dev/polisan/piled/PiLED.kt:209-221 | two commands have the same wire form exactly when they agree after byte truncation |
| Inbound.HandleReceivedData | app/src/main/java/dev/polisan/piled/PiLED.kt:156-177 | a chunk shorter than 18 bytes fails. Opcode 5 yields bytes 50..52 as the colour and fails when shorter than 53. Any other opcode keeps the colour |
| Inbound.VersionIgnored | app/src/main/java/dev/polisan/piled/PiLED.kt:162-166 | changing the version byte never changes the outcome |
| Inbound.ColorChangesOnlyOnPush | app/src/main/java/dev/polisan/piled/PiLED.kt:166-175 | a successful dispatch changes the colour only for a well-formed colour-changed push |
| Inbound.PushFrameCarriesColor | app/src/main/java/dev/polisan/piled/PiLED.kt:166-172 | a push built in the outbound layout is 55 bytes and delivers its payload's first three bytes as the colour: the offsets 50..52 agree with 18+32 |
| Inbound.OwnCommandsIgnored | app/src/main/java/dev/polisan/piled/PiLED.kt:166-175 | no packet the client itself builds changes the colour when dispatched |
| Session.Disconnect | app/src/main/java/dev/polisan/piled/PiLED.kt:121-131 | afterwards nothing is open, the flag is false and no listener runs; the secret and colour are kept |
| Session.DisconnectIdempotent | app/src/main/java/dev/polisan/piled/PiLED.kt:121-131 | disconnecting twice equals once; an already disconnected session is unchanged |
| Session.WithSharedSecret | app/src/main/java/dev/polisan/piled/PiLED.kt:80-90 | the secret is re-read. A packet is built exactly when a non-empty secret is stored, laid out as header‖MAC‖payload. An empty secret makes the command throw. Nothing else in the session changes |
| Session.IssuedPacketDecodes | app/src/main/java/dev/polisan/piled/PiLED.kt:80-90 | any packet the guard lets out parses to the right header fields, its payload decodes to the command, and its tag verifies |
| Session.NoSecretNoPacket | app/src/main/java/dev/polisan/piled/PiLED.kt:80-90 | with no stored secret no packet is built, nothing throws, and the connection, listeners and colour are untouched |
| Session.EmptySecretRaises | app/src/main/java/dev/polisan/piled/PiLED.kt:247-274 | an empty secret passes the null check, but the MAC refuses the empty key: the command throws and builds nothing |
| Session.SendColor | app/src/main/java/dev/polisan/piled/PiLED.kt:182-192 | the packet is 55 bytes with opcode 0 and payload `[r,g,b,0,0]`; a packet is built exactly when a non-empty secret is stored |
| Session.SendSuspend | app/src/main/java/dev/polisan/piled/PiLED.kt:197-204 | the packet is 55 bytes with opcode 4 and payload exactly `[209,0,255,3,0]`; a packet is built exactly when a non-empty secret is stored |
| Session.StartFadeAnimation | app/src/main/java/dev/polisan/piled/PiLED.kt:209-216 | the packet is 55 bytes with opcode 2 and payload `[r,g,b,duration mod 256,speed mod 256]`; a packet is built exactly when a non-empty secret is stored |
| Session.StartPulseAnimation | app/src/main/java/dev/polisan/piled/PiLED.kt:218-226 | the packet is 55 bytes with opcode 3 and payload `[r,g,b,duration mod 256,speed mod 256]`; a packet is built exactly when a non-empty secret is stored |
| Session.RequestCurrentColor | app/src/main/java/dev/polisan/piled/PiLED.kt:231-237 | the packet is header and tag only (50 bytes) with opcode 1; a packet is built exactly when a non-empty secret is stored |
| Session.Connect | app/src/main/java/dev/polisan/piled/PiLED.kt:95-115 | returns true exactly when the socket connects and a non-empty secret is stored. Then the flag is raised, the socket is open, one more listener runs and a colour request is issued. A missing secret makes the guard's toast throw on the I/O thread, and an empty one makes the MAC throw. Either of those, or a refused socket, returns false and ends fully disconnected |
| Session.ConnectRequestsColor | app/src/main/java/dev/polisan/piled/PiLED.kt:104-108 | with a usable secret the connect succeeds, and its request parses as opcode 1 with an empty payload and the MAC of the header |
| Session.SendPacket | app/src/main/java/dev/polisan/piled/PiLED.kt:253-267 | a failing write on an open stream forces the disconnected state; otherwise, and always without a stream, nothing changes |
| Session.SendAfterDisconnect | app/src/main/java/dev/polisan/piled/PiLED.kt:253-267 | sending after a disconnect is a no-op that cannot fail |
| Session.Received | app/src/main/java/dev/polisan/piled/PiLED.kt:140-143 | a read is dispatched only when it returned n > 0 bytes, and then as the n-byte prefix of the 55-byte buffer |
| Session.ListenStep | app/src/main/java/dev/polisan/piled/PiLED.kt:139-149 | a failed read disconnects. Any other read leaves everything but the colour alone, and changes the colour only for a well-formed push, to its bytes 50..52 |
| Session.Listen | app/src/main/java/dev/polisan/piled/PiLED.kt:136-151 | the loop stops at the first failed read, which leaves it disconnected; no read after a failure is handled. If every read succeeds, the connection is untouched. The final colour is the last well-formed push |
| Session.TransitionsPreserveConsistency | app/src/main/java/dev/polisan/piled/PiLED.kt:95-131 | every transition keeps the connected flag equal to "socket set" and listeners running exactly while connected |
| Session.EndOfStreamKeepsConnection | app/src/main/java/dev/polisan/piled/PiLED.kt:139-145 | as written, an end-of-stream read leaves a connected session connected and unchanged |
| Session.ListenStepClosing | app/src/main/java/dev/polisan/piled/PiLED.kt:139-149 | corrected step: an end of stream or a failed read disconnects; every other read behaves as before |
| Session.EndOfStreamDisconnects | app/src/main/java/dev/polisan/piled/PiLED.kt:139-149 | with the correction, an end of stream always ends in a consistent, disconnected session |

## Left out

- HMAC-SHA256 internals are not modelled. `Hmac` is any total function
  whose digest is 32 bytes, keyed by the secret string. Its UTF-8 key
  encoding is inside it too.
- Frame.CreatePacket: the MAC's refusal of an empty key is not part of its
  contract. `hmacSha256` builds `SecretKeySpec` from the secret and throws
  on an empty key. The model states that rule as `Frame.KeyAccepted` and
  applies it in `Session.WithSharedSecret` and `Session.Connect`, the only
  callers, before any packet is built.
- `System.currentTimeMillis() / 1000` and `Random.nextLong()` are the
  `timestamp` and `nonce` parameters.
- The float colour conversion is not modelled: `(channel * 255).toInt()` in
  `sendColor`, and `red / 255f` in `handleReceivedData`. Commands take the
  integer results and apply `toByte()`. The session's colour is held as
  three channel bytes.
- Sockets, streams, coroutines and cancellation are reduced to the session
  record. Send tasks and dispatch tasks are launched asynchronously in the
  source; the model applies them one at a time, in order.
- A dispatch failure is modelled as `Failure`, leaving the colour as it
  was. In the source, a chunk too short for its opcode
  throws index-out-of-bounds inside its own launched task; the listener
  does not see it. What the platform then does with the uncaught exception
  is not modelled.
- Port parsing (`port.toInt()`) and every other connect failure are folded
  into `ConnectOutcome.Refused`.
- The `onConnected` callback is not modelled. `connect` on an already
  connected session opens a new socket without closing the old one; the
  model shows this only as a second listener.
- Android `Context`, SharedPreferences, first-run defaults, Toast and Log
  are not modelled, except for one effect. Making the missing-secret toast
  on the I/O thread that `connect` runs on throws, and `Session.Connect`
  models that as a failed connect. The commands are called from the UI
  thread, where the toast is shown and the result is null. The stored secret is the `stored` parameter.
- `MainActivity.kt` and `NFCReader.kt` are not part of this model. They are
  UI and NFC plumbing that only call the commands.
- Inbound tags are never verified: the source does not check them, and
  neither does the model. `Frame.Authentic` describes a valid tag only for
  packets the client builds.
- Commands.Payload: out-of-range duration and speed wrap (`toByte()`), as
  in the code; the code never rejects them.
- Session.Listen: the loop uses the as-written `ListenStep`, which keeps
  spinning on end of stream. The corrected `ListenStepClosing` is stated
  and proved alongside it (see Findings).

## Findings

| source | as written | input that shows it | evidently intended | confidence | as-written member | corrected member |
|---|---|---|---|---|---|---|
| app/src/main/java/dev/polisan/piled/PiLED.kt:139-145 | the loop only dispatches `bytesRead > 0` and re-reads while a socket is set. An end of stream (-1) neither exits nor disconnects, so a peer that closes leaves the client spinning and showing "connected" | a connected session and a read returning -1 | end of stream ends the listener and disconnects, as a failed read does | medium, not executed | Session.EndOfStreamKeepsConnection | Session.ListenStepClosing |
