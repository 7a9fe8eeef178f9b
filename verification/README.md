# Verified model of the Vision and VLESS streams

This project models the stream protocols of alpha-ray in Dafny and proves that bytes written on one side come out
on the other: whole, in order, once, and with nothing of the framing in them.

**Vision** (`src/protocol/vision_tls.rs`). A writer turns each write into a frame
`command(1) | content_len(2) | padding_len(2) | content | padding` with a randomly drawn padding length. A client
puts its 16-byte id in front of its first frame. After a write that looks like TLS application data, announced by
the command `StartDirectCopy`, everything is raw. The reader undoes this as a resumable state machine, which may be
suspended at any byte of its input or of its caller's buffer. A server that does not know the id passes everything
through.

**VLESS** (`src/protocol/vless.rs`). A request header in front of the client's bytes, and a response header in front
of the server's, read from streams that may be split anywhere.

**TLS** (`src/protocol/tls.rs`). The poll functions that move bytes between callers, a TLS session and a transport.

## How it is built

| file | contents |
|---|---|
| `Bytes.dfy` | bytes, 16-bit words, results |
| `VisionReading.dfy` | the one-shot decoder, the label of each wire byte, readers suspended in the middle of a wire, runs, conservation |
| `VisionWriting.dfy` | what writes emit, the grammar of the wire, the round trip, end to end |
| `VisionSync.dfy` | reader and writer enter raw mode at the same byte |
| `VisionBytes.dfy` | frames, ids, TLS records and padding on literal bytes |
| `VisionSniffing.dfy` | what the TLS sniffing remembers and when it decides; frame sizes |
| `Sessions.dfy` | the TLS session as queues, with its assumptions |
| `VisionProspects.dfy` | what has arrived says about the next reads, before they happen |
| `VisionStreams.dfy` | the stream class: unframing, framing and the poll functions in place |
| `TlsStreams.dfy` | the plain TLS stream class |
| `Streams.dfy` | what protocols on top are given: a transport, a TLS stream or a Vision stream; awaited operations, exact reads |
| `Utf8.dfy`, `TargetAddrs.dfy` | lossy UTF-8; printing and parsing target addresses |
| `Vless.dfy` | the VLESS headers: encoding, parsing, requests with addons, the response |
| `VlessStreams.dfy` | connecting, accepting, and the client's stream that strips the response |
| `VlessOverVision.dfy` | the two layers together: VLESS read and written by its own code on Vision streams |

The imperative code is modelled as classes and methods that update the same buffers and fields. Their contracts are
stated with independent definitions, and the theorems are about those. `Decode` is the one-shot decoder. `Labels`
says for every wire byte whether it is id, header, content, padding or raw. `History` relates a reader that has
consumed part of a wire to the whole of it, for every continuation of the wire. `Unframes` is the contract of one
decoder call. `Emitted` and `AfterWrite` describe one framed write. A `Run` is any interleaving of arriving bytes
and decoder calls, and `Happens` says that each call did what a call does. The ghost fields of the stream classes
record everything ever taken, delivered and framed, and `Valid` relates these records, so that what it says holds
after any sequence of calls.

The VLESS code runs on an `AsyncStream`, which is a transport, a TLS stream or a Vision stream. It has the same
contract on all of them, so that what VLESS delivers and what Vision delivers are related by the ghost records of both
streams. Only a TLS stream may end with bytes unread (`CutOff`), for the reasons found below.

`Prospects` lists what a Vision reader will find in what has already arrived: now, and after each further chunk of
plaintext. `HandshakeFate` computes from it, before a call, whether the VLESS handshake will lose bytes.

The formats are also stated without the functions that encode and parse them, as numbers on literal bytes
(`VisionBytes.dfy`, `Vless.AcceptedBytes` and its neighbours, `Utf8.ValidIffEncoded`, `TargetAddrs.PortText`). Sessions
and transports count how often an operation would have blocked and how often one has failed. The poll functions say in
these terms that they wait only when something has blocked, report every error, and invent none.

A caller's buffer appears as the room it offers and the bytes put into it. The random draw is a value chosen freely
from the configured range. The state of the code is kept as two values, one for reading and one for writing.

## Assumptions

- The session (`Sessions.dfy`) hands out plaintext in order. Of what it is offered it accepts as much as it has room
  for. Its room shrinks with what it accepts, and grows only when ciphertext is written out or the handshake ends. A
  session behind its handshake without room has ciphertext to be written out. It has no plaintext while handshaking.
  A read hands out as much plaintext as there is and as fits. When processing fails, part of what had been read, up to
  the bad record, has been decrypted, and it fails for good. Plaintext in a record that never completes is not counted as arriving.
- A session called reliable raises no errors of its own, and its transport none. A transport at its end reports it.
  TLS carries to one side a prefix of what the other side's session accepted.
- The session takes any amount of ciphertext. rustls also refuses to read more while its buffer of plaintext is full,
  which a read without room on a TLS stream can bring about; such an error is not part of a reliable session here.
- A stream under VLESS may fail with any error, also with `UnexpectedEof`; `CanFail` says when a stream has a reason
  to. An awaited operation may be found suspended (`Pending`, `Waiting`) at any poll.
- A buffer created with a capacity has exactly that spare room, so that `accept` never reads past the request. A full
  one grows by at least 64 bytes.
- Integer arithmetic wraps as in a release build. Only the sum of a padding draw and its base can wrap: see
  `ShortFrameSize`.
- Parsing and printing of socket addresses are functions given to `FromStr` and `Display`; text is UTF-8 bytes.

## What the proofs found

- The sniffer never decides on a handshake whose session id leaves no room for the cipher suite within the bytes
  kept (`ResolvableIff`, `LongSessionIdExample`). It then keeps the answer it had.
- A padding draw whose sum with the base exceeds 16 bits leaves a short frame unpadded (`ShortFrameSize`,
  `WrappingDrawExample`). The default configuration cannot do this.
- A request for a domain of more than 255 bytes is sent with a wrong length, and the rest of the domain reaches the
  target as payload (`RequestRoundTrip`, `LongDomainExample`).
- A domain that prints like a socket address is read back as one (`DomainRoundTrip`).
- `TlsStream::poll_read` without room in the caller's buffer does not return until it waits, fails, or has ended the
  stream, and plaintext not read by then is lost. So is plaintext unread when the transport accepts zero bytes. Over a
  session that has not failed, a read that ends the stream loses bytes exactly if some had not been read and one of
  these two is the case (`TlsStream.PollRead`); both happen (`EmptyReadExample`, `ZeroWriteExample`).
- Vision's `poll_read` reports that it is waiting just after it has read ciphertext, with no read outstanding, exactly
  if that gave no plaintext and neither the stream nor the session has ended or failed (`VisionTlsStream.Refill`; any
  other wait is for the transport). A session ticket is enough (`TicketExample`).
- Vision's `poll_write` waits only to get rid of what an earlier, failed write left over. Its second loop offers the
  frame to the session without writing anything out: over a reliable session, with nothing left over, it never
  returns exactly if the frame, with the padding drawn, exceeds the room in the session. So, where no padding wraps, it
  never returns if the smallest frame for a write of that length exceeds the room, and always does if the largest fits
  (`VisionTlsStream.PollWrite`, `EmittedRange`). `FullSessionExample` is such a write.
- `accept` reads command, port and address kind from the 22 bytes in front of any addons, although the addons' length
  precedes the command. A request with addons is read correctly exactly if the first four bytes behind the addons'
  length happen to be its command, port and kind (`AddonsRoundTrip`). A request for TCP port 443 can come back as one
  for UDP port 53 (`AddonsExample`). The other round trips are for requests without addons, which is all that
  `connect` sends.
- During the VLESS handshake a read that ends in an error loses the bytes it took. It takes bytes exactly if it finds
  an invalid Vision command and before that at least one byte, and no more than the buffer has room for
  (`VlessStream.ReadChunk`; only Vision streams do so, see `AsyncStream.PollRead`). Whether a call will lose bytes is
  decided by what has arrived before it, as far as that goes: exactly if `HandshakeFate` is `Lost`
  (`VlessStream.PollRead`). `LostResponseExample` loses a whole response and a byte of payload. A peer's writer never
  sends an invalid command, so that nothing is lost between two of these streams (`ClientDelivers`).

## Model

| member | source | states |
|---|---|---|
| VisionReading.LabelsDecode | src/protocol/vision_tls.rs:143-268 | for every state and wire, the one-shot decoder delivers exactly the content and raw bytes that the labelling of the wire names |
| VisionReading.ResumeMonotone | src/protocol/vision_tls.rs:143-268 | more wire never changes what was delivered, nor undoes an error |
| VisionReading.HistoryMeaning | src/protocol/vision_tls.rs:135-269 | what a suspended reader has delivered, followed by what it will deliver from its buffer and any future input, is the decoding of the whole wire |
| VisionReading.IncrementalRefinesOneShot | src/protocol/vision_tls.rs:135-269 | the resumable decoder refines the one-shot decoder for every interleaving of arrivals and calls with any room, on all wires, valid or not |
| VisionReading.UnknownUserPassesThrough | src/protocol/vision_tls.rs:162-183 | a server delivers nothing before 16 bytes, and passes an unknown user's wire on unchanged from byte 0 |
| VisionReading.FailureMeansBad | src/protocol/vision_tls.rs:189-189 | a call of a run fails only if the one-shot decoder finds an invalid command in the wire |
| VisionReading.WireConservation | src/protocol/vision_tls.rs:142-268 | over any run the bytes consumed are an id of 0 or 16 bytes, 5 for each frame, those delivered and the padding; the delivered ones are those labelled content or raw, in wire order |
| VisionWriting.WireGrammar | src/protocol/vision_tls.rs:271-292 | every run of writes emits [id] Frame(Continue)* [Frame(StartDirectCopy) raw*], at most one StartDirectCopy and no EndPadding |
| VisionWriting.SameReading | src/protocol/vision_tls.rs:135-347 | the reader labels every byte of a writer's wire as the writer means it, in both directions |
| VisionWriting.OneShotRoundTrip | src/protocol/vision_tls.rs:135-347 | decoding what any run of writes emitted gives back what was written, for all padding draws |
| VisionWriting.EndToEnd | src/protocol/vision_tls.rs:135-347 | for all writes, draws, arrivals and rooms: delivered is a prefix of written, and no call fails |
| VisionWriting.EndToEndComplete | src/protocol/vision_tls.rs:135-347 | once the whole wire has arrived and the reader is starved, everything written has been delivered |
| VisionBytes.FrameBytes | src/protocol/vision_tls.rs:184-264 | on bytes: commands 0, 1 and 2, lengths with the high byte first, the content delivered, the padding dropped, and what follows |
| VisionBytes.PartOfFrameBytes | src/protocol/vision_tls.rs:184-233 | a part of a header delivers nothing, a part of a frame what there is of its content |
| VisionBytes.IdBytes | src/protocol/vision_tls.rs:162-183 | a client reads frames at once; a server drops a known id of 16 bytes and passes an unknown one through |
| VisionBytes.EmittedBytes | src/protocol/vision_tls.rs:271-347 | on bytes: what every write emits, with its command, lengths, content and zeros |
| VisionBytes.DirectCopyBytes | src/protocol/vision_tls.rs:284-292 | raw mode begins exactly with a write that begins 17 03 03 when it may start |
| VisionBytes.FirstHelloBytes | src/protocol/vision_tls.rs:294-308 | a write that begins 16 03 01 starts the sniffing, and a ClientHello allows raw mode; others change nothing |
| VisionBytes.NextHelloBytes | src/protocol/vision_tls.rs:309-326 | the hello is kept up to 128 bytes, and the two bytes behind its session id decide: not 13 05 |
| VisionBytes.LongestSessionId | src/protocol/vision_tls.rs:310-325 | behind a short first write the sniffer can be resolved if and only if the session id has at most 81 bytes |
| VisionBytes.HandshakeBeforeDirectCopy | src/protocol/vision_tls.rs:283-308 | from a fresh stream, raw mode is entered only by application data behind a handshake |
| VisionBytes.DefaultPaddingBytes | src/security/vision_tls.rs:53-53 | the exact lengths that the default padding gives, and all draws it allows |
| VisionSync.RawFromOffset | src/protocol/vision_tls.rs:271-292 | the writer's raw bytes are exactly those from one offset of the wire on |
| VisionSync.RawModeAnnounced | src/protocol/vision_tls.rs:148-159 | a reader is in raw mode only if the writer has announced it |
| VisionSync.DirectCopyInSync | src/protocol/vision_tls.rs:148-159 | at every point of every run a reader in raw mode has consumed all frames, the last of which has announced raw mode, and one that has consumed a raw byte is in raw mode |
| VisionSniffing.SnifferHoldsPrefix | src/protocol/vision_tls.rs:294-313 | the sniffed hello is empty or the exact prefix of consecutive writes from one beginning 16 03 01, of 128 bytes or the first write's length |
| VisionSniffing.SnifferResolution | src/protocol/vision_tls.rs:309-326 | the sniffer is resolved exactly if what it keeps covers the cipher suite, by the first write with which it does, which decides by the suite |
| VisionSniffing.ShortSessionIdResolves | src/protocol/vision_tls.rs:315-325 | with a session id of at most 32 bytes (section 4.1.3 of RFC 8446), 79 bytes resolve it |
| VisionSniffing.ResolvableIff | src/protocol/vision_tls.rs:310-325 | for any held hello of at least 44 bytes, of however many writes: some continuation resolves it if and only if the session id leaves room for the suite within what is kept |
| VisionSniffing.LongSessionIdExample | src/protocol/vision_tls.rs:310-325 | a concrete hello that no run of framed writes ever resolves |
| VisionSniffing.ShortFrameSize | src/protocol/vision_tls.rs:329-334 | a short write is padded to max(content, draw + base) if and only if that sum does not wrap |
| VisionSniffing.WrappingDrawExample | src/protocol/vision_tls.rs:329-334 | a concrete configuration and draw that leave a short write unpadded |
| VisionSniffing.FrameSize | src/protocol/vision_tls.rs:328-346 | the exact and extreme lengths of one framed write |
| VisionSniffing.EmittedRange | src/protocol/vision_tls.rs:328-346 | what a write emits lies between the least and the most for its length, and both are emitted for some draw |
| VisionSniffing.WireSize | src/protocol/vision_tls.rs:271-347 | lower and upper bounds on the wire of any run of writes |
| VisionSniffing.DefaultFrameSize | src/security/vision_tls.rs:53-53 | with the default padding short frames take 500 to 1000 bytes, longer ones at most 256 more than their content |
| VisionProspects.ProspectsShift | src/protocol/vision_tls.rs:351-410 | delivering bytes shifts all prospects by just these bytes, whatever the reader's state and input |
| VisionProspects.NothingDelivered | src/protocol/vision_tls.rs:351-410 | a reader that has delivered nothing yet decodes what arrives as if it had all come at once |
| VisionStreams.VisionTlsStream.constructor | src/protocol/vision_tls.rs:104-133 | a new stream is valid and has no history |
| VisionStreams.VisionTlsStream.UnframeReadBuf | src/protocol/vision_tls.rs:135-269 | puts exactly what the one-shot decoder has for the caller and what fits; consumes labelled bytes only; holds nothing back while there is room; fails exactly at an invalid command; terminates |
| VisionStreams.VisionTlsStream.SniffHello | src/protocol/vision_tls.rs:294-326 | the sniffing step equals the function the theorems are about, with all its indices in bounds |
| VisionStreams.VisionTlsStream.DrawPadding | src/protocol/vision_tls.rs:329-337 | a draw from the range for the length, and the padding length it leads to |
| VisionStreams.VisionTlsStream.PutFrame | src/protocol/vision_tls.rs:339-346 | appends one frame |
| VisionStreams.VisionTlsStream.FrameBuf | src/protocol/vision_tls.rs:271-347 | appends what the write emits and moves the writing state on |
| VisionStreams.VisionTlsStream.FrameWrite | src/protocol/vision_tls.rs:440-442 | frames a write once and keeps the stream's history |
| VisionStreams.VisionTlsStream.Deliver | src/protocol/vision_tls.rs:357-364 | puts exactly what there is and what fits, fails exactly at an invalid command, and what is put and what remains make up what remained |
| VisionStreams.VisionTlsStream.TakePlaintext | src/protocol/vision_tls.rs:373-384 | moves the next chunk of plaintext from the session, changing nothing of what remains |
| VisionStreams.VisionTlsStream.ReadCipher | src/protocol/vision_tls.rs:386-396 | reads and processes ciphertext, changing nothing of what remains |
| VisionStreams.VisionTlsStream.Refill | src/protocol/vision_tls.rs:370-408 | makes progress, waits, fails or ends, each for the stated reason; never waits at the end of the stream; having read ciphertext it waits if and only if that gave no plaintext and neither ended the stream nor failed |
| VisionStreams.VisionTlsStream.ReadRound | src/protocol/vision_tls.rs:356-409 | one round of the loop: what it delivers, and when it waits, fails, ends or goes on |
| VisionStreams.VisionTlsStream.PollRead | src/protocol/vision_tls.rs:351-410 | delivers in order, nothing lost or twice; puts exactly what the wire taken so far holds and what fits, and what has arrived decides that before the call; waits only with nothing deliverable and the stream not ended, because the transport has blocked or ciphertext was read; ends only when the session has ended and all is delivered; fails exactly at an invalid command within reach, or reports an error that has occurred |
| VisionStreams.VisionTlsStream.PollWrite | src/protocol/vision_tls.rs:414-465 | waiting frames nothing, and only when the transport has blocked; with nothing left over the write is framed once in any case; success reports at most 65535 bytes, leaves the session with all of the wire, and no ciphertext pending unless the transport has blocked; every error is reported; over a reliable session and with nothing left over it never returns if and only if the frame exceeds the session's room, so certainly if the smallest does, and certainly not if the largest fits |
| VisionStreams.VisionTlsStream.DrainBeforeFraming | src/protocol/vision_tls.rs:419-438 | hands leftovers to the session without framing anything, writing ciphertext out when it is full |
| VisionStreams.VisionTlsStream.OfferWriteBuf | src/protocol/vision_tls.rs:448-452 | what the session accepts, which is what it has room for, leaves the buffer, in order |
| VisionStreams.VisionTlsStream.DrainWriteBuf | src/protocol/vision_tls.rs:447-453 | empties the buffer into the session or reports its error; over a reliable session the loop ends if and only if the session has room for all of it |
| VisionStreams.VisionTlsStream.FlushTls | src/protocol/vision_tls.rs:455-462 | writes ciphertext until none is left; waits exactly if the transport has blocked, fails exactly if a write has failed |
| VisionStreams.StreamsEndToEnd | src/protocol/vision_tls.rs:350-465 | at any time in the life of two connected streams, what one delivered is a prefix of what was written to the other, and in the end all of it |
| VisionStreams.TicketExample | src/protocol/vision_tls.rs:386-407 | a reader that reads ciphertext without plaintext waits though the transport has not blocked |
| VisionStreams.FullSessionExample | src/protocol/vision_tls.rs:447-453 | a write to a session with little room never returns |
| Streams.AsyncStream.PollRead | src/util.rs:73-74 | the contract of a transport, a TLS stream and a Vision stream: in order, nothing lost or twice, an end only at the end (or where a TLS stream is cut off), waiting and errors only for their own reasons, and bytes along with an error exactly at an invalid Vision command |
| Streams.AsyncStream.PollWrite | src/util.rs:73-74 | takes exactly the reported prefix, none of it when waiting, and fails only for its own reason, on all three |
| Streams.AsyncStream.ReadBuf | src/util.rs:85-85 | an awaited read keeps the contract of one poll |
| Streams.AsyncStream.WriteAll | src/protocol/vless.rs:156-156 | polls until all of the data is taken; a prefix of it when it fails or is still suspended |
| Streams.AsyncStream.PollFlush | src/protocol/vless.rs:157-157 | ready only when everything written has been sent on |
| Streams.AsyncStream.WriteAllAndFlush | src/protocol/vless.rs:156-157 | the same and an awaited flush: ready only when all has been taken and sent on |
| Streams.ReadBufExact | src/util.rs:78-93 | reads at least what is needed, exactly that if the buffer has just that capacity; fails at the end of the stream only if it is too short, and with a buffer too small if and only if no buffer is large enough |
| Utf8.LossyIsValid | src/protocol/vless.rs:274-274 | lossy decoding always yields a legal string |
| Utf8.LossyIffValid | src/protocol/vless.rs:274-274 | it leaves exactly the well-formed inputs unchanged |
| Utf8.ValidIffEncoded | src/protocol/vless.rs:274-274 | well-formed text is exactly what encodes a sequence of scalar values, bit by bit |
| Utf8.ReplacedPart | src/protocol/vless.rs:274-274 | each longest part that some character begins with, or else one byte, is replaced by EF BF BD |
| Vless.EncodedHeader | src/protocol/vless.rs:131-154 | each field of an encoded request is at its place |
| Vless.EncodedBytes | src/protocol/vless.rs:131-154 | the encoding of every request as literal bytes |
| Vless.AcceptedBytes | src/protocol/vless.rs:235-286 | what literal bytes say: commands 1, 2 and 3, the port, and the kinds 1, 2 and 3 of addresses |
| Vless.ParsedBytes | src/protocol/vless.rs:239-256 | the fixed fields, and the addons skipped by their length |
| Vless.RejectedBytes | src/protocol/vless.rs:241-285 | which literal bytes are refused, with which error, and when; or are too few |
| Vless.RequestRoundTrip | src/protocol/vless.rs:131-300 | for every request and payload, parsing the encoding followed by the payload gives both back if and only if the header has room for the target |
| Vless.LongDomainExample | src/protocol/vless.rs:146-147 | a concrete domain that the server takes for payload |
| Vless.RequestPrefixTruncated | src/protocol/vless.rs:235-286 | a part of a request is never mistaken for a request or an error |
| Vless.AcceptedIsEncoded | src/protocol/vless.rs:131-300 | what is accepted, without addons and in well-formed UTF-8, is the encoding of the request |
| VlessStreams.AcceptDomain | src/protocol/vless.rs:267-273 | consumes exactly the domain however the stream splits it; fails or waits having consumed a part of it |
| VlessStreams.AcceptTarget | src/protocol/vless.rs:258-286 | consumes exactly the address and returns what it says |
| VlessStreams.ReadRequest | src/protocol/vless.rs:235-286 | what has been consumed parses to exactly the request or the error returned, and to neither when it waits or the stream ends |
| VlessStreams.Accept | src/protocol/vless.rs:235-300 | however the stream splits a request, returns what it says, consumes exactly its bytes, and answers only accepted ones, sending the answer on; over a stream without a reason to fail the outcome is that of the incoming bytes |
| Vless.ParseWithAddons | src/protocol/vless.rs:241-259 | what parsing makes of any request with addons: it takes command, port and kind from the first four bytes behind the addons' length, and the rest as it is |
| Vless.AddonsRoundTrip | src/protocol/vless.rs:241-259 | for every request with addons: parsing gives the request and the payload back if and only if the four bytes behind the addons' length are the request's command, port and kind |
| Vless.AddonsExample | src/protocol/vless.rs:241-259 | a concrete request whose addons come back as another command and port |
| Vless.VerdictBefore | src/protocol/vless.rs:235-286 | what is accepted or rejected stays so whatever follows |
| Vless.ResponseRoundTrip | src/protocol/vless.rs:56-73 | stripping the response gives back what follows it |
| Vless.ResponseBytes | src/protocol/vless.rs:56-73 | for every version byte, addons and payload: stripping gives exactly the payload, and nothing from a part of the header |
| Vless.StripSplit | src/protocol/vless.rs:56-73 | a complete header is stripped alike whatever follows |
| VlessStreams.VlessStream.constructor | src/protocol/vless.rs:122-129 | a new stream will deliver what follows the response header |
| VlessStreams.VlessStream.Connect | src/protocol/vless.rs:131-160 | writes the encoding of the request and sends it on, and changes nothing of what will be read |
| VlessStreams.VlessStream.Decode | src/protocol/vless.rs:56-73 | drops a complete header or nothing |
| VlessStreams.FateFollows | src/protocol/vless.rs:183-217 | one read of the handshake settles the fate of the bytes, or leaves the prediction as it was |
| VlessStreams.FateOfOneRead | src/protocol/vless.rs:183-217 | the first read, with room for all of it, is lost if and only if an invalid command follows it |
| VlessStreams.VlessStream.ReadChunk | src/protocol/vless.rs:185-203 | one inner read behind what is held; it loses bytes if and only if it finds an invalid command with at least one byte before it, all within the spare room |
| VlessStreams.VlessStream.Handshake | src/protocol/vless.rs:183-217 | completes the header, keeping the surplus; loses bytes if and only if the prediction says so; over all calls, however often it is resumed, it takes at most 257 successful inner reads |
| VlessStreams.VlessStream.PollRead | src/protocol/vless.rs:176-229 | over any calls delivers exactly the inner stream behind the response header, surplus first; loses bytes in the handshake only, and exactly if what has arrived says so before the call; passes on inner errors with their reasons, and fails by itself only if the inner stream ends during the handshake |
| VlessStreams.VlessStream.PlaceSurplus | src/protocol/vless.rs:220-226 | surplus leaves the buffer for the caller, in order |
| TargetAddrs.PortRoundTrip | src/util.rs:20-44 | every port is read back from its decimal form |
| TargetAddrs.NumeralBytes | src/util.rs:20-44 | numerals are decimal, most significant digit first |
| TargetAddrs.PortText | src/util.rs:44-44 | a port is read exactly from its decimal numeral, behind zeros and perhaps a plus sign |
| TargetAddrs.PrintedDomainSplits | src/util.rs:42-44 | the last colon of a printed domain is the one before the port, whatever the domain contains |
| TargetAddrs.DomainRoundTrip | src/util.rs:16-52 | printing and parsing a domain gives it back if and only if the text is not that of a socket address |
| TargetAddrs.SocketLikeDomainExample | src/util.rs:16-52 | a concrete domain that comes back as a socket address |
| TargetAddrs.ParsedDomainPrints | src/util.rs:16-52 | parsed text is printed back unchanged if and only if its port is canonical |
| TargetAddrs.Refused | src/util.rs:34-52 | which texts are refused, and with which error |
| TargetAddrs.RefusedPorts | src/util.rs:42-45 | behind the last colon, exactly empty, non-digit and too large ports are refused |
| TlsStreams.TlsStream.constructor | src/protocol/tls.rs:49-55 | a new stream is valid and has no history |
| TlsStreams.TlsStream.FlushTls | src/protocol/tls.rs:57-76 | ends the stream if and only if the transport accepts zero bytes |
| TlsStreams.TlsStream.DriveTlsReadable | src/protocol/tls.rs:78-106 | loses no plaintext of a read with room, and ends the stream at the end of the transport |
| TlsStreams.TlsStream.ReadPackets | src/protocol/tls.rs:86-100 | reads and processes ciphertext; says that there is no more exactly at the end of the transport |
| TlsStreams.TlsStream.FinishHandshake | src/protocol/tls.rs:119-125 | drives the handshake to its end or the stream's |
| TlsStreams.TlsStream.ReadPlaintext | src/protocol/tls.rs:128-138 | delivers plaintext in session order |
| TlsStreams.TlsStream.PollRead | src/protocol/tls.rs:110-148 | delivers in session order, as much as there is and fits; a read that delivers nothing and is ready has ended the stream, and loses bytes if and only if some are unread and it had no room or the transport accepted zero bytes; waits exactly if the transport has blocked; reports every error |
| TlsStreams.EmptyReadExample | src/protocol/tls.rs:127-145 | a read without room that loses a byte |
| TlsStreams.ZeroWriteExample | src/protocol/tls.rs:60-68 | a transport that accepts zero bytes makes the stream lose a byte |
| TlsStreams.TlsStream.WriteRound | src/protocol/tls.rs:180-205 | one round of the loop: offer, flush, and take, wait, fail or go round again |
| TlsStreams.TlsStream.WriteToSession | src/protocol/tls.rs:179-206 | however many rounds it goes, takes a prefix once and reports just that; a reliable session with room takes what it has room for at once; it spins only in a handshake without room |
| TlsStreams.TlsStream.PollWrite | src/protocol/tls.rs:152-207 | waiting takes nothing, success takes exactly the first n bytes, so over any run the session has what was acknowledged; a session with room takes as much at once even if the transport blocks; after success no ciphertext is pending unless the transport has blocked or accepted nothing |
| VlessOverVision.RequestOverVision | src/protocol/vless.rs:131-300 | over Vision the server recovers the request and then exactly the payload, at every point of every run |
| VlessOverVision.ResponseOverVision | src/protocol/vless.rs:175-229 | over Vision the client strips the response and gets exactly the payload |
| VlessOverVision.Serve | src/protocol/vless.rs:235-300 | `accept` and later reads, run on a Vision stream: what it delivers is what was consumed for the request and then the payload |
| VlessOverVision.ServerDelivers | src/protocol/vless.rs:235-300 | whatever the server's code returns over Vision: nothing but the client's request is accepted and nothing rejected, the payload read is a part of what the client wrote, and in the end all of it |
| VlessOverVision.ClientDelivers | src/protocol/vless.rs:175-229 | the client's stream over Vision delivers a part of what the server wrote behind its response, loses nothing, and in the end has all of it |
| VlessOverVision.SessionOverVision | src/protocol/vless.rs:131-300 | both directions at once, for the code of both sides: always a part of what the other side wrote and nothing else, and all of it once the wire has arrived and been read |
| VlessOverVision.SpoiledProspects | src/protocol/vless.rs:183-203 | a concrete wire whose prospects predict the loss |
| VlessOverVision.LostResponseExample | src/protocol/vless.rs:189-203 | a client that receives it loses a whole response and a byte of payload |

## Left out

- Cryptography, certificates and the inside of rustls: the session is its queues and what it may refuse.
- VisionStreams.VisionTlsStream.PollRead: does not promise that a waiting call is woken; wakers belong to the executor, and waiting is a result.
- TlsStreams.TlsStream.PollWrite: after an error the session may have taken part of the caller's bytes, as in the code.
- `poll_flush` and `poll_shutdown` on their own: they flush ciphertext as the modelled loops do and add only calls into the transport.
- Whether the sniffing identifies TLS 1.3 traffic: the flags are modelled as computed.
- `VlessProtocol::send_response`, which writes the two bytes `accept` has already written.
- Parsing of socket addresses and `to_socket_addrs`, which belong to the standard library, and the conversion from SOCKS addresses.
- Sockets, listeners, the HTTP and SOCKS front ends, dispatcher, pipelines and logging: plumbing without an invariant of their own.
