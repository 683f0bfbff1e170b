# edge-tts-rust in Dafny

This project models the protocol logic of `edge-tts-rust`. The crate is a
client for the Microsoft Edge "read aloud" text-to-speech service: it opens
a websocket to the service and sends two text messages. The first is a
`speech.config` message that picks the audio format. The second is an
`ssml` message that carries the text and the voice settings. It then reads
frames until the service marks the end of the turn, and collects the audio
carried by the binary frames. The connection URL carries a `Sec-MS-GEC`
token, derived from the clock and a fixed client secret.

The model has these modules:

- `Wrappers`: the `Option` type.
- `Strings`: the primitives the source relies on:
  - `str::contains` and `str::replace`;
  - decimal rendering of a `u64`;
  - `{:x}` hex rendering of a digest;
  - ASCII upper-casing;
  - the bytes of an ASCII string.
- `Errors`: the crate's `Error`, with its `Display` and `From` impls.
- `SecMsGec`: `gen_sec_ms_gec`. The Unix time in seconds and SHA-256 are
  parameters.
- `Framing`: the header block both outbound messages share. It is
  `Name:Value` lines ended by CRLF, a blank line, then the body. `Parse`
  reads the layout back, and the builders are checked against it.
- `Templates`: templates filled by successive `str::replace` calls. The
  lemmas say when each argument lands verbatim in its own slot, and when a
  later call rewrites an earlier argument.
- `Messages`: `request1` (the `speech.config` message) and `request2` (the
  SSML message). The timestamps and the request id are parameters.
- `FrameDecoder`: the read loop of `request`, as a fold over the read
  results the socket delivers. It includes a reference description of the
  loop's outcome and a proof that the loop agrees with it.
- `Synthesis`: `request` itself, that is the handshake, the two sends and
  the read loop. Every answer from the network is supplied up front, and
  the result records the trace of actions the client took.

Details of the code the model keeps as written:

- The header lines have no space after the colon
  (`Content-Type:application/json; charset=utf-8`).
- The end-of-turn test is whether the text contains `Path:turn.end`
  anywhere.
- A frame of another kind fails with the message `Undefined logic`.

## Model

| member | source | states |
|---|---|---|
| Errors.Display | src/lib.rs:35-39 | An error displays as `error: ` followed by exactly its message. |
| Errors.DisplayFromMessage | src/lib.rs:35-53 | `From` keeps the text unchanged, so the display after the prefix is the original text, and two such errors display alike exactly when their texts are equal. |
| SecMsGec.BucketStart | src/lib.rs:17 | `sec - sec % 300` is a multiple of 300, at most `sec` and more than `sec - 300`: the start of the five-minute bucket. |
| SecMsGec.Ticks | src/lib.rs:18 | If `b * 1_000_000_000` fits in a `u64`, then `b * 1_000_000_000 / 100` equals `b * 10_000_000` exactly. |
| SecMsGec.OverflowBound | src/lib.rs:12-18 | The `u64` product `b * 1_000_000_000` does not overflow exactly when the Unix time is at most 6802270499, i.e. when `b <= 18446744073`. |
| SecMsGec.BucketTicks | src/lib.rs:12-18 | The tick count is a multiple of the bucket length in ticks and lies within one bucket below the FILETIME tick count of the input time. |
| SecMsGec.HashInput | src/lib.rs:19 | The hash input is ASCII. It is decimal digits whose value is the tick count, followed by the client secret `6A5AA1D4EAFF4E9FB37E23D68491D6F4` with no separator. The digits have no leading zero, as `{}` renders them. |
| SecMsGec.HashInputIffSameBucket | src/lib.rs:16-19 | Two times give the same hash input if and only if they fall in the same 300-second FILETIME bucket. |
| SecMsGec.Token | src/lib.rs:20-22 | For any hash function with 32-byte digests, the token has 64 characters, each in `0-9A-F`, and reading it back as hex gives the digest of the ASCII bytes of the hash input. |
| SecMsGec.TokenStableInBucket | src/lib.rs:16-22 | Two times in the same bucket give the same token, whatever the hash function. |
| Strings.DecimalRoundTrip | src/lib.rs:19 | Reading the `{}` rendering of a number back as decimal gives the number. |
| Strings.UpperHexRoundTrip | src/lib.rs:22 | Rendering bytes with `{:x}` and upper-casing gives only upper-case hex digits, and reading them back as hex gives the bytes. |
| Framing.ParseRender | src/tts.rs:92-94 | A header block of well-formed headers, a blank line and any body parse back to the same headers, in order, and the same body. |
| Messages.ConfigBody | src/tts.rs:95-97 | The JSON body is the template with the output format in place of its single `{1}` slot, verbatim, whatever the format contains. |
| Messages.Request1 | src/tts.rs:90-98 | The config message renders the headers `X-Timestamp`, `Content-Type:application/json; charset=utf-8` and `Path:speech.config`, in that order and with no space after the colon, then a blank line and the JSON body. |
| Messages.Request1Parses | src/tts.rs:90-98 | The config message reads back as exactly its three headers and its JSON body. |
| Strings.Replace | src/tts.rs:115-120 | Replacing a pattern by itself leaves the text unchanged, and a replacement as long as the pattern keeps the length. |
| Strings.ReplaceAppend | src/tts.rs:115-120 | `replace` distributes over a concatenation whose second part starts with a character foreign to the pattern, since no occurrence can straddle the seam. |
| Strings.ReplaceSplice | src/tts.rs:95-97 | Replacing a placeholder that occurs once, between texts that hold none and with the character before it foreign to the placeholder, yields exactly the surrounding text with the replacement in its place. |
| Templates.FillStep | src/tts.rs:115-120 | One `replace` of the k-th placeholder fills slot k alone, when the earlier arguments do not contain that placeholder. |
| Templates.FillReplaceSpan | src/tts.rs:115-120 | The `replace` calls, applied in order, fill each slot with its own argument, provided no argument contains a placeholder that is replaced after it. |
| Templates.FillReplaceSlots | src/tts.rs:120 | When each slot is either exactly the placeholder or free of it, one `replace` call rewrites every slot that is exactly its placeholder, including slots where an earlier argument put that placeholder, and leaves the others alone. |
| Templates.FillReplaceEach | src/tts.rs:115-120 | With guarded pieces, one `replace` call on a filled template equals the template filled with each slot's content replaced on its own, whatever the slots hold. |
| Templates.TemplateAfterSpan | src/tts.rs:115-120 | For any arguments, after the first `m` calls slot `j < m` holds argument `j` rewritten by the calls `j+1` to `m`, and every later slot still holds its placeholder. |
| Messages.SsmlBody | src/tts.rs:107-121 | For all arguments: the SSML body is the template with `lang` rewritten by the replacements of `{2}` to `{6}`, `voice` by `{3}` to `{6}`, `pitch` by `{4}` to `{6}`, `rate` by `{5}` and `{6}`, `volume` by `{6}`, and `text` verbatim, each in its own slot. |
| Messages.ReplaceSixRescans | src/tts.rs:115-120 | The same layout holds for any six-slot template whose pieces guard the placeholders. |
| Messages.SsmlBodyLayout | src/tts.rs:107-121 | If no argument contains a placeholder replaced after its own, the SSML body is the template with `lang`, `voice`, `pitch`, `rate`, `volume` and `text` in their slots, verbatim and without XML escaping. |
| Messages.LastSlotPatternInFirstSlot | src/tts.rs:115-120 | In a six-slot template, a first argument equal to the last placeholder survives the first five calls. The sixth call rewrites it to the last argument, together with the last slot. |
| Messages.PlaceholderInLangIsRewritten | src/tts.rs:115-120 | With `lang` equal to `{6}`, the SSML body carries the text both in `xml:lang` and in the prosody element. |
| Messages.Request2 | src/tts.rs:101-123 | The SSML message renders the headers `X-RequestId`, `Content-Type:application/ssml+xml`, `X-Timestamp` and `Path:ssml`, in that order, then a blank line and the SSML body. |
| Messages.Request2Parses | src/tts.rs:101-123 | The SSML message reads back as exactly its four headers and its SSML body. |
| FrameDecoder.MetadataLength | src/tts.rs:70 | The metadata length is a `u16`, with its high byte the frame's first byte and its low byte the second (big-endian). |
| FrameDecoder.AppendFrame | src/tts.rs:70-72 | A frame is accepted exactly when it holds its two-byte prefix and its metadata. The buffer then keeps its earlier contents and is followed by exactly the frame's bytes after the metadata, in order. |
| FrameDecoder.EncodeFrameRoundTrip | src/tts.rs:68-72 | A frame built from a length prefix, metadata and audio is accepted, and decoding it gives back the metadata length and the audio. |
| FrameDecoder.WellSizedIsEncoded | src/tts.rs:68-72 | Every accepted frame is such an encoding of its metadata and audio. |
| FrameDecoder.Step | src/tts.rs:62-85 | One read result does one of five things. A benign result keeps streaming and adds its payload. An end-of-turn text returns the buffer unchanged. A short binary frame aborts. Another frame kind fails with `Undefined logic`. A closed connection fails with `Connection closed`, and any other read error fails with its own text. |
| FrameDecoder.Loop | src/tts.rs:60-87 | The loop reads at most the events given, stops after at least one read when it ends, and reads everything only while it is still streaming. |
| FrameDecoder.FirstStop | src/tts.rs:60-87 | The index where the loop stops is the first event that is not benign, and all events before it are benign. |
| FrameDecoder.Decode | src/tts.rs:58-87 | The loop from an empty buffer equals the reference description: it reads through the first event that is not benign, and its outcome is that event's effect on the in-order payloads before it, or streaming with all payloads when there is none. |
| FrameDecoder.LoopReference | src/tts.rs:58-87 | The loop equals the reference description. It reads through the first non-benign event. The outcome is that event's effect on the in-order payloads gathered before it. |
| FrameDecoder.DecodeDone | src/tts.rs:58-67 | The stream returns audio if and only if an end-of-turn text is preceded only by benign events. The audio is then the in-order concatenation of the payloads before it. |
| FrameDecoder.DecodeFailed | src/tts.rs:74-84 | The loop fails exactly when the first event that is not benign is a frame of another kind, a closed connection or a read error. It then stops after that read with an error carrying only `Undefined logic`, `Connection closed`, or the read error's own text. |
| FrameDecoder.DecodeAborted | src/tts.rs:70-72 | The loop aborts if and only if the stopping event is a binary frame shorter than its prefix and metadata. |
| FrameDecoder.LoopIgnoresLater | src/tts.rs:64-65 | Once the loop has returned, no later event changes the outcome or the number of reads. |
| FrameDecoder.TextWithoutMarkerIsSkipped | src/tts.rs:63-67 | A text frame without `Path:turn.end` changes nothing. |
| FrameDecoder.ExampleStream | src/tts.rs:68-72 | A frame with three metadata bytes and two audio bytes, then the end-of-turn text, yields those two bytes after two reads. The event after the end of the turn is never read. |
| FrameDecoder.ExampleTwoFrames | src/tts.rs:58-72 | Frames carrying `AB` and `CD`, then the end of the turn, yield `ABCD`. |
| FrameDecoder.ExampleShortFrame | src/tts.rs:70 | A one-byte binary frame aborts the loop after one read. |
| Synthesis.Run | src/tts.rs:44-87 | For any two built messages, the trace starts with the handshake. If the handshake and both sends succeed, the result is the read loop's on the delivered events; otherwise it is an error carrying the text of the first failure. |
| Synthesis.Request | src/tts.rs:44-54 | A run starts with the handshake. If every step succeeds, its result is the read loop's. Otherwise the result is an error carrying the text of the first failure. |
| Synthesis.SendOrder | src/tts.rs:44-54 | The config message is sent before the SSML message. A failed handshake sends nothing, and a failed config send sends nothing more. A failure never reads. A successful run reads exactly the events the loop consumed. |
| Synthesis.RunSendOrder | src/tts.rs:44-61 | For any two built messages, the same ordering holds: they are sent in the order given, a failure stops all later sends and reads, and a successful run reads exactly the events the loop consumed. |
| Synthesis.RunReadsAfterSends | src/tts.rs:44-61 | Position `i` of a trace is a read exactly when the handshake and both sends succeeded and `i` is at least 3. That read is then the `(i-3)`-th event delivered. |
| Synthesis.ReadsAfterSends | src/tts.rs:44-61 | No handshake or send comes after a read in a run's trace. |
| Synthesis.RequestDone | src/tts.rs:44-67 | A run returns audio if and only if the handshake and both sends succeed and the stream reaches the end of the turn with only benign events before it. The audio is the in-order payloads of those events. |
| Synthesis.SentMessagesParse | src/tts.rs:46-54 | Both messages a run sends read back as their header blocks and bodies. |

## Left out

- src/voice.rs (the voice list): a blocking HTTP GET and JSON decoding, with no logic of its own.
- `build_ws_connection`: the websocket and TLS handshake and its fixed request headers are network I/O. Only the handshake's error text appears, as `Session.connectError`.
- `build_ws_url`: a `format!` of constants, the token and a random connection id, so there is nothing to prove beyond `SecMsGec.Token`.
- `datetime_to_string`: wall-clock time and chrono formatting. The two timestamps are opaque parameters. There are two of them because `request1` and `request2` each read the clock.
- `Uuid::new_v4`: the request id is a parameter.
- SHA-256 is a function parameter that returns 32 bytes. The model does not include the hash itself.
- `SystemTime::now` is replaced by a Unix time in seconds, given as a `nat`. The `unwrap` panic for a clock before 1970 cannot arise in the model.
- The websocket transport: read results are a finite sequence given in advance. When it runs out while the loop is still streaming, the model reports `Streaming`, where the real read would block with no timeout.
- The contents of a binary frame's metadata: the source ignores them, and so does the model.
- SecMsGec.Ticks: the `u64` overflow of `b * 1_000_000_000` is excluded by a precondition, proved exact by `SecMsGec.OverflowBound`, rather than modelled as wrap-around or panic. The `u64` addition of the epoch offset cannot overflow below that bound.
- SecMsGec.HashInputIffSameBucket: different buckets are proved to give different hash inputs only. They are not proved to give different tokens, because that would require SHA-256 to have no collisions.
- Strings.AsciiUpper: `to_uppercase` is modelled on ASCII only. This is exact here because the hex text it is applied to is ASCII.
- Strings.Replace: requires a non-empty pattern. Every call in the source uses a three-character placeholder.
- Text is modelled as sequences of characters, without UTF-8 encoding. `as_bytes` is modelled only for ASCII text, which is all the hash input can hold.
