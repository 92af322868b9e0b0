# usb-keyboard: peertalk framing, keystroke relay and keepalive

A Dafny model of the core of `usb-keyboard`, a command-line tool that relays
keystrokes typed on a Mac to a software keyboard on a tethered iOS device. The
tool talks to the device over a USB tunnel using peertalk frames. The model
has three parts:

- **Frame codec** (`PTFrame`, `frame.dfy`). A frame is a 16-octet header of
  four big-endian unsigned 32-bit fields, followed by the payload verbatim.
  The fields are version, type, tag and payloadSize. `Encode` fills in the
  defaults (version 1, tag 0) and derives payloadSize from the payload. It
  rejects a truthy payload that is not a Buffer. `DecodeAsWritten`
  is `PTFrame.decode` as the code has it: it returns the last `payloadSize`
  octets with no bound check. `Decode` is the same function with the bound
  check added.
- **Keystroke relay** (`Keyboard`, `keyboard.dfy`). Each raw stdin chunk
  becomes one frame:
  - a lone backspace (0x7F) becomes DeleteBackward;
  - a lone carriage return becomes a line feed;
  - every chunk except a lone backspace becomes a TextMessage whose payload
    is a 4-octet big-endian length prefix followed by the chunk.
- **Keepalive** (`Keepalive`, `keepalive.dfy`). A pure step function over an
  explicit state: the ping counter `tagno`, the number of `pending` ping
  timers, and whether the session is `established`.
  - DeviceInfo and Pong each schedule a ping.
  - Stop emits `close`.
  - Every other kind is only logged.
  - `TimerFired` runs one pending timer, which sends a Ping tagged `++tagno`.

`Bytes` (`bytes.dfy`) holds the big-endian 32-bit write/read pair and proves
that it is a bijection. `Protocol` (`protocol.dfy`) holds the frame kinds and
header constants (index.js:13-26). `Results` (`results.dfy`) holds the
Option/Result types used for `undefined` and for thrown errors.

Four behaviours of the code are easy to misread; the model follows the code:

- The code never cancels a scheduled ping timer. Each DeviceInfo or Pong
  calls `setTimeout` again, so timers stack rather than being replaced
  (`Keepalive.RepeatedPongsStack`).
- `encode` tests `if (payload)`. So a falsy non-Buffer payload (`0`, `""`,
  `null`) is treated as if it were absent. Only a truthy non-Buffer throws.
  `PayloadArg.Other(truthy)` keeps this distinction.
- The keepalive handler keeps no lifecycle state. Before a DeviceInfo
  arrives, a Pong or a Stop is handled like any other frame. So the model adds
  no Connecting/Ready guard. Only `established` records the resolved promise.
  After a DeviceInfo, a Stop ends the process (see `Keepalive.RunCloses` under
  Left out).
- The code's `decode` has no bound check. It is modelled as written
  (`DecodeAsWritten`), and the checked `Decode` is modelled separately. See
  Findings.

## Model

| member | source | states |
|---|---|---|
| Bytes.ReadWriteU32BE | index.js:48-51 | reading back the four octets `writeUInt32BE` stores gives the value written |
| Bytes.WriteReadU32BE | index.js:63-66 | any four octets are the big-endian encoding of the value `readUInt32BE` reads from them, so the encoding is onto |
| Bytes.WriteU32BEInjective | index.js:48-51 | two values have the same four octets exactly when they are equal |
| PTFrame.Header | index.js:46-51 | the header is 16 octets whose four big-endian fields read back as version, type, tag and payloadSize |
| PTFrame.Encode | index.js:30-60 | fails exactly when the payload is a truthy non-Buffer; otherwise the output is 16 plus the payload length in octets (16 for an absent or empty payload, size field 0); its fields read back as the version (default 1), type, tag (default 0) and payload length; octets 16.. are the payload verbatim |
| PTFrame.SliceFrom | index.js:69 | Node's `slice(start)` returns a suffix of the buffer; its length is the buffer length minus `start` for a start in range, and `-start` for a negative start no further back than the buffer's length; a start past the end gives nothing, and one further back than the buffer's length gives the whole buffer |
| PTFrame.DecodeAsWritten | index.js:62-80 | fails only on a buffer shorter than a header; the fields are the big-endian reads at 0, 4, 8 and 12; the payload is a suffix of the buffer; its length equals payloadSize exactly when payloadSize is at most the whole buffer's length, header included; when payloadSize exceeds the buffer's length, the payload starts at twice the buffer length minus payloadSize, or at 0 if that is negative |
| PTFrame.OversizedPayloadAsWritten | index.js:66-69 | a bare 16-octet header declaring 20 payload octets decodes, as written, to the header's own size field `00 00 00 14` as payload |
| PTFrame.Decode | index.js:62-80 | HeaderOutOfRange exactly for buffers under 16 octets; TruncatedFrame exactly when payloadSize exceeds the octets after the header; otherwise the payload has payloadSize octets, is the buffer's tail, and agrees with the code as written |
| PTFrame.DecodeEncode | index.js:30-79 | round trip: decoding an encoded frame returns the version, type and tag written (defaults filled in), the payload verbatim and payloadSize equal to its length |
| PTFrame.EncodeDecode | index.js:62-79 | converse round trip: a buffer holding exactly one frame re-encodes from its decoding to the same octets |
| PTFrame.OverlappingPayloadAsWritten | index.js:66-69 | an 18-octet buffer whose header declares 4 payload octets decodes, as written, to a payload that starts with two header octets; the checked decode reports TruncatedFrame |
| PTFrame.AsWrittenPayloadOverlapsHeader | index.js:66-69 | whenever payloadSize exceeds the octets after the header but not the whole buffer, the code as written returns a payload of the declared length that begins inside the header |
| Keyboard.TextFrame | index.js:140-145 | the text frame has 4 more octets than `d`; its first four octets read back as the length of `d`; the rest is `d` |
| Keyboard.UnwrapTextFrame | index.js:140-145 | stripping the length prefix from a text frame gives back the text |
| Keyboard.TextFrameOfUnwrap | index.js:140-145 | every payload whose length prefix matches its contents is the text frame of those contents |
| Keyboard.FixLineEnd | index.js:176-178 | a lone carriage return becomes a lone line feed; every other chunk is unchanged |
| Keyboard.ChunkToFrame | index.js:165-185 | the frame is DeleteBackward with no payload exactly for the chunk `[0x7F]`; otherwise it is a TextMessage whose payload unwraps to the chunk, with a lone 0x0D replaced by 0x0A; version and tag are left to their defaults |
| Keyboard.ChunkToFrameInjective | index.js:168-184 | two chunks give the same frame exactly when they are equal or are `[0x0D]` and `[0x0A]` |
| Keyboard.ChunkExamples | index.js:168-184 | `[0x7F]` maps to type 2001 with no payload; `[0x0D]` maps to type 3000 with payload `00 00 00 01 0A`; "hi" maps to payload `00 00 00 02 68 69`; a multi-octet chunk containing 0x7F is wrapped unchanged |
| Keyboard.Relay | index.js:165-185 | the octets written to the tunnel for a chunk: 16 for a lone backspace, otherwise 20 plus the chunk length |
| Keyboard.RelayDelivers | index.js:165-185 | decoding the relayed octets gives version 1 and tag 0, and either DeleteBackward with an empty payload (lone backspace) or a TextMessage whose payload unwraps to the fixed chunk |
| Keepalive.OnData | index.js:110-134 | the counter never changes; DeviceInfo and Pong add exactly one pending ping and emit nothing; the session becomes established exactly on DeviceInfo; close is emitted exactly for Stop; every other kind only logs the frame; no frame sends anything directly |
| Keepalive.Fire | index.js:99-104 | a pending timer fires by sending one Ping tagged with the incremented counter and consuming that timer; with no timer pending nothing happens |
| Keepalive.RunPingTags | index.js:97-104 | over any event sequence, the i-th Ping sent carries `tagno + 1 + i`, and the counter ends at the last tag sent |
| Keepalive.PingTagsIncrease | index.js:97-104 | from the initial state Pings carry tags 1, 2, 3, ... in strictly increasing order |
| Keepalive.RunPendingBalance | index.js:113-126 | timers scheduled by DeviceInfo and Pong equal the Pings sent plus the timers still pending: no Ping without a schedule, none lost |
| Keepalive.RunCloses | index.js:127-130 | the number of closes emitted equals the number of Stop frames received |
| Keepalive.RunEstablished | index.js:114-122 | the session is established after a run exactly when it already was or a DeviceInfo arrived |
| Keepalive.RepeatedPongsStack | index.js:123-126 | two Pongs leave two more timers pending: scheduled pings are not replaced |
| Keepalive.PingWire | index.js:99-104 | a fired Ping is encoded as a bare 16-octet frame that decodes to version 1, type 2000 and its tag, with an empty payload |

## Left out

- The usbmux tunnel acquisition, the promise chain and the process exit codes (index.js:188-196) are left out. They are an external library and process I/O.
- The EventEmitter wiring in `wrapTunnel` and `keyboard` (index.js:83-94, 154-163) is left out. It is callback plumbing. Only "send = encode, receive = decode" is modelled, in `Keyboard.Relay` / `Keyboard.RelayDelivers` and `Keepalive.PingWire`.
- Terminal raw mode, `console.log` messages and `process.exit` (index.js:117, 129, 133, 151-162) are left out. They are terminal and process I/O. The "anything else" branch is kept as a `LogFrame` output.
- The 1000 ms delay of `setTimeout` is not modelled. A scheduled ping is a `pending` count, and `TimerFired` is a separate event. A `TimerFired` with no pending timer cannot happen in the program; the model treats it as a no-op.
- Promise `resolve`/`reject` (index.js:106-108, 121) is reduced to the `established` flag. The transport `error` event is not modelled.
- The commented-out bplist DeviceInfo parsing (index.js:115-116) is not live code.
- Keepalive.RunCloses: the model goes on handling events after a Stop. In the program, once a DeviceInfo has started the keyboard relay, the `close` a Stop emits (index.js:128) runs the listener at index.js:154-157, which calls `process.exit(0)`, so no later frame is handled. Process exit is not modelled.
- PTFrame.Encode: range errors thrown by `writeUInt32BE` are not modelled as behaviour. Instead, `InRange` requires version, type, tag and payload length to be below 2^32. The same precondition therefore limits the Ping tag counter.
- Keyboard.TextFrame: the length prefix is written by `writeUInt32BE`. So chunks of 2^32 octets or more would throw in the program; here they are excluded by a precondition. For the same reason, `Keyboard.Relay` requires the prefixed payload to stay below 2^32.
- An exception thrown by `readUInt32BE` on a short buffer becomes the `HeaderOutOfRange` result. In the program it would escape the `data` listener uncaught.
- Non-integer or non-number field values (JavaScript coerces them) are not modelled. Fields are natural numbers.

## Findings

| source | as written | input that shows it | evidently intended | confidence | as-written member | corrected member |
|---|---|---|---|---|---|---|
| index.js:66-69 | the payload is `data.slice(length - payloadSize)` with no check that `payloadSize` fits after the header | an 18-octet buffer whose header declares payloadSize 4 decodes to the payload `00 04 41 42`: the last two header octets plus the two real ones | reject a header that declares more payload than follows it (`TruncatedFrame`) | not executed; the USB tunnel delivers one whole frame per chunk, so a well-behaved device never sends such a buffer | PTFrame.OverlappingPayloadAsWritten | PTFrame.Decode |
